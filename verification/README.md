# Verified model of two post-quantum key-exchange stacks

The repository holds two authenticated key exchanges for small devices. The first runs
five messages, M0 to M4, between two UAVs: each side signs with one-time LM-OTS keys below an
LMS tree, an ML-KEM secret is confirmed with HMAC tags, and the authentication paths travel
either inside the messages or through a ground-station ledger. The second, APQE-CDA, runs
three messages between devices whose credentials live on a Fabric ledger behind a UDP gateway.
This project models both in Dafny and proves what their parts promise each other.

`dafny verify dfyconfig.toml` checks the whole project.

## Modules

| modules | content |
|---|---|
| Octets, Bits, Wrappers | bytes, big-endian integers, `memcpy`, XOR and OR bit by bit |
| LmsSpec, LmsChecksum, LmsCorrectness, LmsBinding, LmsReference | LM-OTS and LMS of RFC 8554 as functions; why the checksum works; sign then verify; what an accepted signature pins down; the same constructions written forwards, and what keeps their hash inputs apart |
| LmotsLms | the signer and verifier of the firmware: tree built in place, scratch buffers with running offsets |
| Fragments, Reassembly, FragmentedUdp | datagram format, the receiver as a fold over arrivals, the transport class with its buffers |
| Hkdf | HKDF of RFC 5869 and the expand loop |
| OneTimeIndex | the persisted index over boots, failed writes and crashes |
| Wire, MessageBuffers, SessionKeys | byte layouts of all messages and hashed objects; the member buffers filled in place; what the three derived keys depend on |
| Handshake, MessageForms, Agreement, HonestSession | the two session programs as a step machine; what each step accepts, sends and changes; injective agreement over whole runs; the undisturbed session |
| Sessions, Programs, HonestPrograms | the two session programs statement by statement, refining the step machine from any state; whole programs, interleaved and cut off at any step, as its runs; the two programs answering each other |
| AuditLedger, Repository, LedgerClient, LedgerProgress, PathService, RepositorySession | the ledger's tables and hash-chained log over deaths and restarts, its packets, the client's retry loops over its buffer and what they must achieve, devices and server together, and a whole session over the ledger |
| CredentialLedger, CredentialCodec, Gateway, FabricClient | the chaincode, the credential formats, the gateway and the request/response client |
| ApqeHandshake, ApqeBinding, ApqeSessions | the APQE handshake over software PUF maps, as functions and as the device runs it; what its hashes bind |

## Reading the theorems

SHA-256, HMAC, ML-KEM and Kyber are arbitrary functions of the right lengths; every theorem
holds for all of them, up to the following assumptions:

- Binding theorems name an extractor. They hold for every hash function, and where their
  conclusion fails the extractor has computed two different inputs with the same hash. The
  lemmas on derived keys and device secrets name the colliding pair itself.
- The agreement theorems assume, delivery by delivery, that a signature verifying under an
  honest root was made by its owner on that object, that a tag under a secret shared by honest
  parties was released by one of them, and that no two inputs hashed so far collide. Everything
  else about the network is free: each delivery supplies arbitrary bytes. For an index that has
  been used, the signature assumption rests on `ForgedM2InvertsAChain` and
  `ForgedM3InvertsAChain`; `HonestSessionIsAdmitted` shows that the assumptions exclude no
  undisturbed session.
- The repository results assume that what parses at the ledger was sealed by the device it comes
  from, that a device has one tree for each of its credential versions, and that what reaches a
  device from the ledger's address was sent to it by the ledger.
- KEM and encryption correctness (decryption undoes encryption) is a stated precondition of the
  agreement theorems and of every claim that a session succeeds.

A method states its effect on buffers, fields and counters through a specification function;
lemmas then say what that function promises. Random values, timeouts, repository answers and
results of flash writes are inputs.

## Where the code promises less than expected

- The receiver never compares payload lengths with the announced total. Reassembly is exact for
  fragments of one `sendMessage`; for arbitrary datagrams a completed receive is fully written
  exactly when the first arrivals fill it (`CompleteFillsExactlyWhenFirstArrivalsFill`, with
  `CompleteWithoutData` as the example).
- One-time use needs the counter never to be reset below its history, as the firmware's README
  warns (`ESP32_Proposed_Protocol_Complete_v4/README.md`, lines 201-204): `ResetIsSafeExactlyAboveHistory`,
  `ResetSignsTwice`.
- The acknowledgement of a root enrollment carries index 0 and passes for the confirmation of
  path 0, and the client does not look at the device in an acknowledgement. Confirmations are
  reliable exactly for the other indices, and for the device they were sent to
  (`ConfirmationIsReliableExactlyAboveZeroForItsAddressee`, `RootAckConfirmsIndexZero`,
  `ForeignAckConfirms`).
- A ledger process that dies between committing a row and appending its audit line loses the
  event, because the repeated enrollment then counts as unchanged. The log replays to the tables
  exactly when for every key the last row written is the last row logged, and retrying the same
  row never restores that (`RootsReplayExactlyWhenLastWritesAreLogged`, `RetryingNeverRepairsRoot`,
  `InterruptedRootIsLost`, and the same three for paths).
- The TID index stays the inverse of the credential table exactly while no live TID is shared
  (`PutKeepsCompleteExactlyWhenTidIsFree`, `SharedTidHidesCredential`). Soundness needs no such condition.
- Request numbers restart with every boot, so a delayed answer to another query of an earlier boot
  is accepted (`RepliesMatchExactlyWithoutTwins`, `DelayedAnswerIsTaken`). A record of another
  identity is then refused by the session that fetched it.
- The hashes in the three APQE messages have no key. They decide whether both sides hold the same
  values (`AlteredM1IsAnsweredExactlyWhenFieldsSurvive`, `AnswerIsTakenExactlyWhenSidesMatch`,
  `SentM3IsTakenExactlyWhenSidesMatch`) and nothing else: each message is accepted over whatever
  32-byte values fit it (`M1NeedsNoInitiatorSecret`, `M2AcceptedExactlyWhenMasked`,
  `M3AcceptedExactlyWhenMasked`). No theorem here says who sent a message of this handshake, or
  with whom its session key is shared.
- The verifier of a credential does not cover its TID (`VerifierCoversExactlyThreeFields`).
- A TID that two devices share leads the responder to the other device's record, and then the
  handshake fails (`KeyAgreementThroughLedger`, with `SharedTidBreaksHandshake` as the example).
- `validateM0` compares the nonce of M0 with a copy of itself, so it never fails on the nonce.

## Model

| member | source | states |
|---|---|---|
| LmsChecksum.ChecksumNibbles | ESP32_Proposed_Protocol_Complete_v4/Arduino/libraries/ProposedUavProtocol/library/src/LmotsLms.cpp:184-192 | the 16-bit checksum sum shifted by 4 never overflows, and its three nibbles are the sum in base 16 |
| LmsChecksum.DominationLowersDeficit | ESP32_Proposed_Protocol_Complete_v4/Arduino/libraries/ProposedUavProtocol/library/src/LmotsLms.cpp:184-190 | a digest whose nibbles dominate another's has the smaller checksum sum, with equality only when all nibbles agree |
| LmsChecksum.ChecksumAntichain | ESP32_Proposed_Protocol_Complete_v4/Arduino/libraries/ProposedUavProtocol/library/src/LmotsLms.cpp:184-192 | for any two different digests the 67 step counts of digest plus checksum are incomparable: each vector is strictly smaller somewhere (section 4.4 of RFC 8554) |
| LmotsLms.HashElement | ESP32_Proposed_Protocol_Complete_v4/Arduino/libraries/ProposedUavProtocol/library/src/LmotsLms.cpp:70-95 | the scratch-buffer hash input is the identifier, q, chain number, tag and value, in that order and nothing else; ElementInputDetermines says that these bytes fix all five |
| LmotsLms.ChainHash | ESP32_Proposed_Protocol_Complete_v4/Arduino/libraries/ProposedUavProtocol/library/src/LmotsLms.cpp:97-141 | the stepping loop computes the recursive chain, and is the identity when the start is not below the end |
| LmsCorrectness.ChainComposes | ESP32_Proposed_Protocol_Complete_v4/Arduino/libraries/ProposedUavProtocol/library/src/LmotsLms.cpp:97-141 | walking a chain in two stretches is walking it at once, for any starting value and any split |
| LmotsLms.HashMessageWithChecksum | ESP32_Proposed_Protocol_Complete_v4/Arduino/libraries/ProposedUavProtocol/library/src/LmotsLms.cpp:143-195 | succeeds exactly for messages of at most 970 bytes and then leaves digest and shifted checksum in the output |
| LmotsLms.LmotsPublicHash | ESP32_Proposed_Protocol_Complete_v4/Arduino/libraries/ProposedUavProtocol/library/src/LmotsLms.cpp:197-252 | the running-offset buffer yields the LM-OTS public key hash over all 67 chain ends (section 4.3 and Appendix A of RFC 8554) |
| LmotsLms.Signer.Initialize | ESP32_Proposed_Protocol_Complete_v4/Arduino/libraries/ProposedUavProtocol/library/src/LmotsLms.cpp:23-55 | takes identifier and seed, reuses or allocates the tree and zeroes all 2048 nodes |
| LmotsLms.Signer.BuildTree | ESP32_Proposed_Protocol_Complete_v4/Arduino/libraries/ProposedUavProtocol/library/src/LmotsLms.cpp:309-375 | after the two in-place loops every leaf and every internal node satisfies the equations for T[r] in section 5.3 of RFC 8554, and the seed is erased; without a tree nothing changes |
| LmsSpec.TreeIsUnique | ESP32_Proposed_Protocol_Complete_v4/Arduino/libraries/ProposedUavProtocol/library/src/LmotsLms.cpp:318-369 | those equations leave no freedom: two trees of one seed agree at every node, so the in-place tree is the recursive one |
| LmotsLms.Signer.ExtractPath | ESP32_Proposed_Protocol_Complete_v4/Arduino/libraries/ProposedUavProtocol/library/src/LmotsLms.cpp:387-408 | writes the ten siblings met on the way from leaf q to the root, or refuses and writes nothing |
| LmotsLms.Signer.SignMessage | ESP32_Proposed_Protocol_Complete_v4/Arduino/libraries/ProposedUavProtocol/library/src/LmotsLms.cpp:410-478 | succeeds exactly for q below 1024 and messages that fit, and then writes type, randomizer and the 67 chain values at the digest's steps |
| LmotsLms.LmotsCandidatePublicHash | ESP32_Proposed_Protocol_Complete_v4/Arduino/libraries/ProposedUavProtocol/library/src/LmotsLms.cpp:480-550 | fails exactly on a foreign type word or an overlong message, and otherwise recomputes the key hash from the signature alone |
| LmotsLms.VerifySignature | ESP32_Proposed_Protocol_Complete_v4/Arduino/libraries/ProposedUavProtocol/library/src/LmotsLms.cpp:552-635 | the leaf-to-root loop over scratch buffers decides exactly the verification predicate, refusals included |
| LmsCorrectness.CandidateOfSignature | ESP32_Proposed_Protocol_Complete_v4/Arduino/libraries/ProposedUavProtocol/library/src/LmotsLms.cpp:480-550 | finishing the chains of an honest signature recovers the signer's one-time public key |
| LmsCorrectness.PathClimbsToRoot | ESP32_Proposed_Protocol_Complete_v4/Arduino/libraries/ProposedUavProtocol/library/src/LmotsLms.cpp:587-632 | at every level the fold stands on the tree node (1024 + q) >> level, and it ends at the root |
| LmsCorrectness.SignThenVerify | ESP32_Proposed_Protocol_Complete_v4/Arduino/libraries/ProposedUavProtocol/library/src/LmotsLms.cpp:410-635 | for every identifier, seed, q, randomizer and message that fits, what is signed verifies along the extracted path under the built root |
| LmsBinding.MerkleBinding | ESP32_Proposed_Protocol_Complete_v4/Arduino/libraries/ProposedUavProtocol/library/src/LmotsLms.cpp:587-634 | a climb that reaches the honest root uses the honest leaf value and the honest siblings, or the extractor yields two different inputs with one hash |
| LmsBinding.ChainBinding | ESP32_Proposed_Protocol_Complete_v4/Arduino/libraries/ProposedUavProtocol/library/src/LmotsLms.cpp:97-141 | chains that end alike started alike, or the extractor yields a collision |
| LmsBinding.KeyBinding | ESP32_Proposed_Protocol_Complete_v4/Arduino/libraries/ProposedUavProtocol/library/src/LmotsLms.cpp:480-635 | an accepted signature carries exactly the extracted path and walks to the honest one-time key, or the extractor yields a collision |
| LmsBinding.SignatureBinding | ESP32_Proposed_Protocol_Complete_v4/Arduino/libraries/ProposedUavProtocol/library/src/LmotsLms.cpp:480-635 | against one honest signature under q: any other accepted message or randomizer reaches an honest chain value from strictly below in some chain, the same message forces the same signature byte for byte, or the extractor yields a collision |
| LmsReference.ElementInputDetermines | ESP32_Proposed_Protocol_Complete_v4/Arduino/libraries/ProposedUavProtocol/library/src/LmotsLms.cpp:76-95 | equal inputs of chain and private-element hashes have equal identifier, index, chain number, tag and value |
| LmsReference.MessageInputDetermines | ESP32_Proposed_Protocol_Complete_v4/Arduino/libraries/ProposedUavProtocol/library/src/LmotsLms.cpp:155-181 | equal inputs of message hashes have equal identifier, index, randomizer and message |
| LmsReference.PublicInputDetermines | ESP32_Proposed_Protocol_Complete_v4/Arduino/libraries/ProposedUavProtocol/library/src/LmotsLms.cpp:205-250 | equal inputs of one-time key hashes have equal identifier, index and chain ends |
| LmsReference.LeafInputDetermines | ESP32_Proposed_Protocol_Complete_v4/Arduino/libraries/ProposedUavProtocol/library/src/LmotsLms.cpp:254-278 | equal inputs of leaf hashes have equal identifier, node number and key hash |
| LmsReference.NodeInputDetermines | ESP32_Proposed_Protocol_Complete_v4/Arduino/libraries/ProposedUavProtocol/library/src/LmotsLms.cpp:280-307 | equal inputs of inner-node hashes have equal identifier, node number, left and right child |
| LmsReference.KindsAreDisjoint | ESP32_Proposed_Protocol_Complete_v4/Arduino/libraries/ProposedUavProtocol/library/src/LmotsLms.cpp:70-307 | no input of one of these five kinds is an input of another, whatever identifiers, numbers and contents |
| LmsReference.PrivateInputsAreSeparate | ESP32_Proposed_Protocol_Complete_v4/Arduino/libraries/ProposedUavProtocol/library/src/LmotsLms.cpp:97-121 | the inputs of private elements fix identifier, seed, index and chain, and are no step of any chain |
| LmsReference.PrivateElementsAreSeparate | ESP32_Proposed_Protocol_Complete_v4/Arduino/libraries/ProposedUavProtocol/library/src/LmotsLms.cpp:97-121 | chains of different indices or numbers start from different values, or their two private inputs collide |
| LmsReference.KeyFollowsRfc | ESP32_Proposed_Protocol_Complete_v4/Arduino/libraries/ProposedUavProtocol/library/src/LmotsLms.cpp:197-252 | the recursive key is the one of section 4.3 of RFC 8554 written forwards, with every byte named: all chain ends under identifier, index and marker |
| LmsReference.SignatureFollowsRfc | ESP32_Proposed_Protocol_Complete_v4/Arduino/libraries/ProposedUavProtocol/library/src/LmotsLms.cpp:410-478 | the same for the signature of section 4.5: type word, randomizer, and the value of every walked chain at its step |
| LmsReference.TreeFollowsRfc | ESP32_Proposed_Protocol_Complete_v4/Arduino/libraries/ProposedUavProtocol/library/src/LmotsLms.cpp:318-369 | a node table is a tree exactly if it satisfies the two literal equations of section 5.3 at every leaf and inner node |
| LmsReference.PathFollowsRfc | ESP32_Proposed_Protocol_Complete_v4/Arduino/libraries/ProposedUavProtocol/library/src/LmotsLms.cpp:387-408 | level by level the path holds the sibling of 1024 + q shifted right by the level |
| Bits.ConstantTimeEqual | ESP32_Proposed_Protocol_Complete_v4/Arduino/libraries/ProposedUavProtocol/library/src/ProtocolConstants.h:266-276 | accumulating differences over all bytes decides equality of the two prefixes |
| Fragments.DecodeEncode | ESP32_Proposed_Protocol_Complete_v4/Arduino/libraries/ProposedUavProtocol/library/src/FragmentedUdp.cpp:57-71 | a datagram decodes to the fragment it was framed from |
| Fragments.FrameLayout | ESP32_Proposed_Protocol_Complete_v4/Arduino/libraries/ProposedUavProtocol/library/src/FragmentedUdp.cpp:57-71 | a frame is magic, version, kind, session, total, index, count, length and payload, big-endian, in this order |
| Fragments.DecodeIsCanonical | ESP32_Proposed_Protocol_Complete_v4/Arduino/libraries/ProposedUavProtocol/library/src/FragmentedUdp.cpp:125-158 | only the canonical frame of a fragment is accepted: re-encoding gives back the datagram |
| FragmentedUdp.Transport.SendMessage | ESP32_Proposed_Protocol_Complete_v4/Arduino/libraries/ProposedUavProtocol/library/src/FragmentedUdp.cpp:17-98 | emits exactly the datagrams of the message in order, or a prefix when the link refuses one, and reports the framed byte count |
| FragmentedUdp.Transport.ReadOneDatagram | ESP32_Proposed_Protocol_Complete_v4/Arduino/libraries/ProposedUavProtocol/library/src/FragmentedUdp.cpp:100-159 | accepts a datagram exactly when it decodes, and leaves its payload in the fragment buffer |
| FragmentedUdp.Transport.Take | ESP32_Proposed_Protocol_Complete_v4/Arduino/libraries/ProposedUavProtocol/library/src/FragmentedUdp.cpp:187-250 | one turn of the loop is one step of the reassembly fold, latches only onto the kind and session asked for, and writes only inside the output |
| FragmentedUdp.Transport.Store | ESP32_Proposed_Protocol_Complete_v4/Arduino/libraries/ProposedUavProtocol/library/src/FragmentedUdp.cpp:244-250 | the payload lands at its own offset once, disturbing no payload already placed |
| FragmentedUdp.Transport.ReceiveMessage | ESP32_Proposed_Protocol_Complete_v4/Arduino/libraries/ProposedUavProtocol/library/src/FragmentedUdp.cpp:161-275 | stops at the first complete prefix of the arrivals, with the fitting payloads placed at their offsets, the rest of the output untouched and the framed bytes counted; what it returns is of the kind and session asked for and fits the buffer |
| Reassembly.KeptPayloadsArrived | ESP32_Proposed_Protocol_Complete_v4/Arduino/libraries/ProposedUavProtocol/library/src/FragmentedUdp.cpp:211-261 | every kept payload is the fitting payload of some datagram of the latched message |
| Reassembly.LatchedAsAskedFor | ESP32_Proposed_Protocol_Complete_v4/Arduino/libraries/ProposedUavProtocol/library/src/FragmentedUdp.cpp:211-240 | over all arrivals: what the receiver is collecting has the kind asked for unless that is 0xff, the session asked for unless that is 0, and a total within the buffer |
| Reassembly.LatchesOnFirstAnswer | ESP32_Proposed_Protocol_Complete_v4/Arduino/libraries/ProposedUavProtocol/library/src/FragmentedUdp.cpp:211-240 | and nothing asked for is passed over: the first well-formed frame of that kind and session that fits is latched onto, with its source |
| Reassembly.LatchesOnFirst | ESP32_Proposed_Protocol_Complete_v4/Arduino/libraries/ProposedUavProtocol/library/src/FragmentedUdp.cpp:196-224 | the receiver latches onto the first acceptable datagram and keeps every fitting index of that message seen since |
| Reassembly.KeptSlices | ESP32_Proposed_Protocol_Complete_v4/Arduino/libraries/ProposedUavProtocol/library/src/FragmentedUdp.cpp:211-261 | if the datagrams of the latched header and source stem from one send, every kept payload is that message's own slice |
| Reassembly.CompleteExactlyWhenAllArrived | ESP32_Proposed_Protocol_Complete_v4/Arduino/libraries/ProposedUavProtocol/library/src/FragmentedUdp.cpp:252-271 | under the same condition the receive completes exactly when every fragment has arrived, whatever the order and the duplicates |
| Reassembly.ReceivesWhatWasSent | ESP32_Proposed_Protocol_Complete_v4/Arduino/libraries/ProposedUavProtocol/library/src/FragmentedUdp.cpp:161-275 | a completed receive holds exactly the message, and reports the sender's framed byte count |
| Reassembly.KeptIsFirst | ESP32_Proposed_Protocol_Complete_v4/Arduino/libraries/ProposedUavProtocol/library/src/FragmentedUdp.cpp:236-250 | what is kept of an index is the payload of the first fitting datagram of the latched message that carried it, and nothing while none has arrived |
| Reassembly.CompleteFillsExactlyWhenFirstArrivalsFill | ESP32_Proposed_Protocol_Complete_v4/Arduino/libraries/ProposedUavProtocol/library/src/FragmentedUdp.cpp:236-271 | for arbitrary datagrams: a completed receive has written every byte of the announced total exactly when the announced count suffices for it and the first fitting datagram of every index is full; and exactly then the framed byte count it reports is the total plus one header per fragment |
| Reassembly.CompleteWithoutData | ESP32_Proposed_Protocol_Complete_v4/Arduino/libraries/ProposedUavProtocol/library/src/FragmentedUdp.cpp:236-271 | one datagram announcing five bytes and carrying none completes a receive in which nothing was written |
| Hkdf.HkdfSha256 | ESP32_Proposed_Protocol_Complete_v4/Arduino/libraries/ProposedUavProtocol/library/src/CryptoHelpers.cpp:86-183 | for 1 to 8160 bytes and at most 128 bytes of info the loop writes the first L bytes of T(1) | T(2) | ... of section 2.3 of RFC 5869, its one-byte counter included; otherwise it writes nothing |
| Hkdf.ShorterKeyIsPrefix | ESP32_Proposed_Protocol_Complete_v4/Arduino/libraries/ProposedUavProtocol/library/src/CryptoHelpers.cpp:138-176 | a shorter request returns a prefix of a longer one |
| Hkdf.DerivedIsStream | ESP32_Proposed_Protocol_Complete_v4/Arduino/libraries/ProposedUavProtocol/library/src/CryptoHelpers.cpp:86-183 | whatever sequence satisfies the recurrence of section 2.3 of RFC 5869, under the key extracted with the salt or 32 zeros, starts with the derived key |
| OneTimeIndex.Counter.InitializePersistentCounter | ESP32_Proposed_Protocol_Complete_v4/Arduino/libraries/ProposedUavProtocol/library/src/ProposedUavProtocol.cpp:240-262 | boots only into an index inside the configured range, in wrapping uint32 arithmetic; with the reset switch the stored index is first overwritten |
| OneTimeIndex.Counter.ReserveQ | ESP32_Proposed_Protocol_Complete_v4/Arduino/libraries/ProposedUavProtocol/library/src/ProposedUavProtocol.cpp:264-282 | hands out the stored index only after its successor is stored, also when the write fails after reaching the flash |
| OneTimeIndex.IndicesAreUsedOnce | ESP32_Proposed_Protocol_Complete_v4/Arduino/libraries/ProposedUavProtocol/library/src/ProposedUavProtocol.cpp:264-282 | over every run of boots, reservations, signatures, failed writes and crashes without a reset, whatever the configurations: indices strictly increase, stay below 1024 and below the stored one, and none signs twice |
| OneTimeIndex.BootsExactlyWithinTheTree | ESP32_Proposed_Protocol_Complete_v4/Arduino/libraries/ProposedUavProtocol/library/src/ProposedUavProtocol.cpp:240-356 | although the range end is added in wrapping arithmetic, a device comes up exactly if its range is not empty and ends inside the tree and the next index lies in it |
| OneTimeIndex.RangeIsHandedOutInOrder | ESP32_Proposed_Protocol_Complete_v4/Arduino/libraries/ProposedUavProtocol/library/src/ProposedUavProtocol.cpp:264-282 | a new device whose writes succeed hands out exactly the configured range, in order and without a gap, and then nothing more, without another write |
| OneTimeIndex.FailedPutLosesAtMostOne | ESP32_Proposed_Protocol_Complete_v4/Arduino/libraries/ProposedUavProtocol/library/src/ProposedUavProtocol.cpp:272-277 | a failed write hands out nothing, and costs an index only if it reached the flash after all; otherwise the same index comes next |
| OneTimeIndex.ResetIsSafeExactlyAboveHistory | ESP32_Proposed_Protocol_Complete_v4/Arduino/libraries/ProposedUavProtocol/library/src/ProposedUavProtocol.cpp:247-257 | a reset boot can never lead to a repeated index exactly when every index handed out so far lies below the new first index |
| OneTimeIndex.ResetSignsTwice | ESP32_Proposed_Protocol_Complete_v4/Arduino/libraries/ProposedUavProtocol/library/src/ProposedUavProtocol.cpp:247-250 | with the reset switch, two boots of one session each sign two arbitrary messages under index 0 |
| Wire.TranscriptBinds | ESP32_Proposed_Protocol_Complete_v4/Arduino/libraries/ProposedUavProtocol/library/src/ProposedUavProtocol.cpp:594-640 | the transcript stream determines SID0 and all four messages, for all lengths below 65536 |
| Wire.Sid0Binds | ESP32_Proposed_Protocol_Complete_v4/Arduino/libraries/ProposedUavProtocol/library/src/ProposedUavProtocol.cpp:496-516 | the SID0 input determines M0 and M1 |
| Wire.SignedM2Binds | ESP32_Proposed_Protocol_Complete_v4/Arduino/libraries/ProposedUavProtocol/library/src/ProposedUavProtocol.cpp:518-547 | the initiator's signed object determines every field it covers, the one-time index included |
| Wire.SignedM3Binds | ESP32_Proposed_Protocol_Complete_v4/Arduino/libraries/ProposedUavProtocol/library/src/ProposedUavProtocol.cpp:549-580 | the responder's signed object determines every field it covers, the hash of M2 and the index included |
| Wire.SignedObjectsAreDisjoint | ESP32_Proposed_Protocol_Complete_v4/Arduino/libraries/ProposedUavProtocol/library/src/ProposedUavProtocol.cpp:518-580 | no initiator object equals a responder object, although both have 910 bytes |
| MessageForms.ValidM0IsM0 | ESP32_Proposed_Protocol_Complete_v4/Arduino/libraries/ProposedUavProtocol/library/src/ProposedUavProtocol.cpp:450-458 | a received M0 passes exactly if it is the built M0 of the peer to this device with some nonce, in the own path mode |
| MessageForms.ValidM1IsM1 | ESP32_Proposed_Protocol_Complete_v4/Arduino/libraries/ProposedUavProtocol/library/src/ProposedUavProtocol.cpp:478-494 | a received M1 passes exactly if it is the built M1 of the peer to this device with the own nonce and some second one, in the own path mode |
| MessageForms.OpeningsBind | ESP32_Proposed_Protocol_Complete_v4/Arduino/libraries/ProposedUavProtocol/library/src/ProposedUavProtocol.cpp:437-476 | M0 and M1 fix identities, nonces and path mode, so messages of the two modes never mix |
| MessageForms.AcceptedM2IsSigned | ESP32_Proposed_Protocol_Complete_v4/Arduino/libraries/ProposedUavProtocol/library/src/ProposedUavProtocol.cpp:1377-1428 | M2 is accepted exactly if it is a message of this session and version, carrying an index, a key, a signature of both and, in its mode, a path that lead to the initiator's root |
| MessageForms.AcceptedM3IsTagged | ESP32_Proposed_Protocol_Complete_v4/Arduino/libraries/ProposedUavProtocol/library/src/ProposedUavProtocol.cpp:968-1102 | M3 is accepted exactly if its inner part is such a message of the responder over this very M2 and the tag is the one under the secret the initiator decapsulates |
| MessageForms.AcceptedM4IsTheOne | ESP32_Proposed_Protocol_Complete_v4/Arduino/libraries/ProposedUavProtocol/library/src/ProposedUavProtocol.cpp:1541-1570 | M4 is accepted only as one byte string: session identifier and the initiator's tag over this transcript |
| MessageForms.ClosingsBind | ESP32_Proposed_Protocol_Complete_v4/Arduino/libraries/ProposedUavProtocol/library/src/ProposedUavProtocol.cpp:1093-1100 | M3 and M4 fix session, inner part and tag, and are never one another |
| MessageForms.InputsAreDisjoint | ESP32_Proposed_Protocol_Complete_v4/Arduino/libraries/ProposedUavProtocol/library/src/ProtocolConstants.h:134-155 | session identifiers, transcripts, signed objects, M2, key derivation and both tags are hashed or authenticated over inputs that never coincide |
| MessageForms.M0Advances | ESP32_Proposed_Protocol_Complete_v4/Arduino/libraries/ProposedUavProtocol/library/src/ProposedUavProtocol.cpp:1334-1365 | an M0 of another form changes nothing; the peer's is answered with its own nonce and fixes the session identifier |
| MessageForms.M1Advances | ESP32_Proposed_Protocol_Complete_v4/Arduino/libraries/ProposedUavProtocol/library/src/ProposedUavProtocol.cpp:882-919 | an M1 of another form ends the session without spending an index; the peer's fixes the session identifier and spends at most one |
| MessageForms.M2Advances | ESP32_Proposed_Protocol_Complete_v4/Arduino/libraries/ProposedUavProtocol/library/src/ProposedUavProtocol.cpp:1370-1460 | an M2 without a valid signature ends the session before an index is spent on it |
| MessageForms.M3Advances | ESP32_Proposed_Protocol_Complete_v4/Arduino/libraries/ProposedUavProtocol/library/src/ProposedUavProtocol.cpp:971-1100 | an M3 without valid signature and tag completes nothing; otherwise exactly one session is added, of this start and of the decapsulated secret |
| MessageForms.M4Advances | ESP32_Proposed_Protocol_Complete_v4/Arduino/libraries/ProposedUavProtocol/library/src/ProposedUavProtocol.cpp:1541-1570 | the responder adds exactly its own session, and only on the one M4 with its initiator's tag |
| MessageForms.M2IsSigned | ESP32_Proposed_Protocol_Complete_v4/Arduino/libraries/ProposedUavProtocol/library/src/ProposedUavProtocol.cpp:919-966 | sending M2 adds one session, whose M2 carries this session's public key and a signature over its own fields under the reserved index |
| MessageForms.M3IsSigned | ESP32_Proposed_Protocol_Complete_v4/Arduino/libraries/ProposedUavProtocol/library/src/ProposedUavProtocol.cpp:1435-1532 | sending M3 adds one session over this very M2, with the ciphertext of the secret that is kept, signed under the reserved index |
| MessageBuffers.Buffers.BuildM0 | ESP32_Proposed_Protocol_Complete_v4/Arduino/libraries/ProposedUavProtocol/library/src/ProposedUavProtocol.cpp:437-448 | fills the whole M0 buffer with the canonical layout |
| MessageBuffers.Buffers.BuildM1 | ESP32_Proposed_Protocol_Complete_v4/Arduino/libraries/ProposedUavProtocol/library/src/ProposedUavProtocol.cpp:460-476 | fills the whole M1 buffer, responder first |
| MessageBuffers.Buffers.ValidateM0 | ESP32_Proposed_Protocol_Complete_v4/Arduino/libraries/ProposedUavProtocol/library/src/ProposedUavProtocol.cpp:450-458 | accepts exactly the M0 addressed from the peer to this device under its suite; the nonce comparison cannot fail |
| MessageBuffers.Buffers.ValidateM1 | ESP32_Proposed_Protocol_Complete_v4/Arduino/libraries/ProposedUavProtocol/library/src/ProposedUavProtocol.cpp:478-494 | accepts exactly the M1 of the peer that echoes the own identity, nonce and suite, and then returns its nonce |
| MessageBuffers.Buffers.ComputeSid0 | ESP32_Proposed_Protocol_Complete_v4/Arduino/libraries/ProposedUavProtocol/library/src/ProposedUavProtocol.cpp:496-516 | hashes the length-prefixed M0 and M1 buffers |
| MessageBuffers.Buffers.BuildM2SignedInput | ESP32_Proposed_Protocol_Complete_v4/Arduino/libraries/ProposedUavProtocol/library/src/ProposedUavProtocol.cpp:518-547 | leaves the initiator's signed object in the sign-input buffer |
| MessageBuffers.Buffers.BuildM3SignedInput | ESP32_Proposed_Protocol_Complete_v4/Arduino/libraries/ProposedUavProtocol/library/src/ProposedUavProtocol.cpp:549-580 | leaves the responder's signed object in the sign-input buffer |
| MessageBuffers.TranscriptHash | ESP32_Proposed_Protocol_Complete_v4/Arduino/libraries/ProposedUavProtocol/library/src/ProposedUavProtocol.cpp:594-652 | the incremental hash over the fields is the hash of the transcript stream, and fails exactly on an oversized field |
| MessageBuffers.Buffers.FillM2 | ESP32_Proposed_Protocol_Complete_v4/Arduino/libraries/ProposedUavProtocol/library/src/ProposedUavProtocol.cpp:878-932 | key first, header, signature and carried path in place give the whole of M2, or a refusal for an index outside the tree |
| MessageBuffers.Buffers.FillInner | ESP32_Proposed_Protocol_Complete_v4/Arduino/libraries/ProposedUavProtocol/library/src/ProposedUavProtocol.cpp:1464-1502 | the same for the inner part of M3, behind the room for its outer header |
| MessageBuffers.Buffers.CloseM3 | ESP32_Proposed_Protocol_Complete_v4/Arduino/libraries/ProposedUavProtocol/library/src/ProposedUavProtocol.cpp:1526-1532 | outer header and tag are put around an inner part that stays |
| Sessions.DeriveSessionKeys | ESP32_Proposed_Protocol_Complete_v4/Arduino/libraries/ProposedUavProtocol/library/src/ProposedUavProtocol.cpp:724-758 | session key and both confirmation keys are the three thirds of the HKDF output for the shared secret, salted with the transcript hash; SessionKeys says what each of them depends on |
| SessionKeys.MaterialBlocks | ESP32_Proposed_Protocol_Complete_v4/Arduino/libraries/ProposedUavProtocol/library/src/ProposedUavProtocol.cpp:724-758 | byte by byte: the keys are the codes of info and 1, of the session key, info and 2, and of the first confirmation key, info and 3, under the code of the secret keyed with the transcript hash |
| SessionKeys.SessionKeyBinds | ESP32_Proposed_Protocol_Complete_v4/Arduino/libraries/ProposedUavProtocol/library/src/ProposedUavProtocol.cpp:740-753 | for every MAC, equal session keys come from equal secrets and equal transcript hashes, or one of two named input pairs collides |
| SessionKeys.ConfirmABinds | ESP32_Proposed_Protocol_Complete_v4/Arduino/libraries/ProposedUavProtocol/library/src/ProposedUavProtocol.cpp:740-754 | the same of the initiator's confirmation key |
| SessionKeys.ConfirmBBinds | ESP32_Proposed_Protocol_Complete_v4/Arduino/libraries/ProposedUavProtocol/library/src/ProposedUavProtocol.cpp:740-755 | the same of the responder's confirmation key |
| SessionKeys.ThirdsAreSeparate | ESP32_Proposed_Protocol_Complete_v4/Arduino/libraries/ProposedUavProtocol/library/src/ProposedUavProtocol.cpp:753-755 | no two of the three keys, of one session or of two, coincide, or a named pair of inputs collides |
| SessionKeys.SessionsHaveOwnKeys | ESP32_Proposed_Protocol_Complete_v4/Arduino/libraries/ProposedUavProtocol/library/src/ProposedUavProtocol.cpp:724-758 | two sessions with one session key are one session: all five transcript parts and the secret are equal, or a named pair collides |
| Sessions.Device.Begin | ESP32_Proposed_Protocol_Complete_v4/Arduino/libraries/ProposedUavProtocol/library/src/ProposedUavProtocol.cpp:330-356 | a device becomes ready exactly when range and counter allow it, and its counter is then what the step machine's boot leaves |
| Sessions.Device.OpenInitiator | ESP32_Proposed_Protocol_Complete_v4/Arduino/libraries/ProposedUavProtocol/library/src/ProposedUavProtocol.cpp:858-919 | M0, M1, SID0 and the reservation take the device exactly where the step machine goes |
| Sessions.Device.CheckM3 | ESP32_Proposed_Protocol_Complete_v4/Arduino/libraries/ProposedUavProtocol/library/src/ProposedUavProtocol.cpp:968-1102 | parsing, version, path, signature, decapsulation, transcript, keys and tag together accept exactly the M3 that the step machine accepts, with its keys |
| Sessions.Device.RunInitiatorSession | ESP32_Proposed_Protocol_Complete_v4/Arduino/libraries/ProposedUavProtocol/library/src/ProposedUavProtocol.cpp:832-1113 | from any state of the system in which the device is idle, the initiator's session over buffers, counter and signer ends in the state, with the messages and with the session key of the step machine, for every timeout, bad message, failed reservation and failed seed |
| Sessions.Device.CheckM2 | ESP32_Proposed_Protocol_Complete_v4/Arduino/libraries/ProposedUavProtocol/library/src/ProposedUavProtocol.cpp:1377-1428 | header, version, path and signature accept exactly the M2 that the step machine accepts |
| Sessions.Device.RespondM3 | ESP32_Proposed_Protocol_Complete_v4/Arduino/libraries/ProposedUavProtocol/library/src/ProposedUavProtocol.cpp:1435-1532 | encapsulation, signature, transcript, keys and tag put exactly the M3 of the step machine into the buffer |
| Sessions.Device.RunResponderOnce | ESP32_Proposed_Protocol_Complete_v4/Arduino/libraries/ProposedUavProtocol/library/src/ProposedUavProtocol.cpp:1302-1570 | the same for the responder's session |
| Programs.InitiatorSessionIsRun | ESP32_Proposed_Protocol_Complete_v4/Arduino/libraries/ProposedUavProtocol/library/src/ProposedUavProtocol.cpp:832-1113 | the initiator's session is an uninterrupted run of step-machine actions, each enabled in its turn |
| Programs.ResponderSessionIsRun | ESP32_Proposed_Protocol_Complete_v4/Arduino/libraries/ProposedUavProtocol/library/src/ProposedUavProtocol.cpp:1302-1570 | the same for the responder's session |
| Programs.SidesRunAlone | ESP32_Proposed_Protocol_Complete_v4/Arduino/libraries/ProposedUavProtocol/library/src/ProposedUavProtocol.cpp:832-1625 | interleaved in any way with the other device's actions, each device goes through exactly what it goes through alone |
| Programs.InterleavingIsRun | ESP32_Proposed_Protocol_Complete_v4/Arduino/libraries/ProposedUavProtocol/library/src/ProposedUavProtocol.cpp:1273-1648 | every interleaving of two programs, each any sequence of boots, sessions and sessions cut off by a power loss at any step, is a run of the step machine |
| Programs.ProgramsAgree | ESP32_Proposed_Protocol_Complete_v4/Arduino/libraries/ProposedUavProtocol/library/src/ProposedUavProtocol.cpp:832-1648 | injective agreement of the programs: over every such interleaving, the responder program's acceptances and the initiator program's completions, as each records them, agree one to one |
| Agreement.StepKeeps | ESP32_Proposed_Protocol_Complete_v4/Arduino/libraries/ProposedUavProtocol/library/src/ProposedUavProtocol.cpp:832-1625 | every boot, crash, reservation, send and delivery keeps the invariant that ties logs, counters and hashed inputs of both devices together |
| Agreement.M2CarriesHonestKey | ESP32_Proposed_Protocol_Complete_v4/Arduino/libraries/ProposedUavProtocol/library/src/ProposedUavProtocol.cpp:1390-1428 | an accepted M2 carries a KEM key that the initiator generated and signed |
| Agreement.M3IsFromResponder | ESP32_Proposed_Protocol_Complete_v4/Arduino/libraries/ProposedUavProtocol/library/src/ProposedUavProtocol.cpp:1011-1102 | an accepted M3 belongs to a session the responder signed, with the same transcript hash |
| Agreement.EqualHashesAgree | ESP32_Proposed_Protocol_Complete_v4/Arduino/libraries/ProposedUavProtocol/library/src/ProposedUavProtocol.cpp:1068-1102 | equal transcript hashes mean equal transcripts, equal shared secrets and equal session keys |
| Agreement.ResponderInjectiveAgreement | ESP32_Proposed_Protocol_Complete_v4/Arduino/libraries/ProposedUavProtocol/library/src/ProposedUavProtocol.cpp:1302-1570 | over whole runs with loss, reordering, duplication, crashes and reboots: every acceptance of the responder agrees with exactly one completed initiator session on SID0, M0, M1, M2, inner M3 and secret, and no two acceptances with the same one, without any nonce being fresh |
| Agreement.InitiatorInjectiveAgreement | ESP32_Proposed_Protocol_Complete_v4/Arduino/libraries/ProposedUavProtocol/library/src/ProposedUavProtocol.cpp:832-1113 | conversely, every completed initiator session agrees with exactly one signed responder session, and no two with the same one |
| HonestSession.HonestSessionCompletes | ESP32_Proposed_Protocol_Complete_v4/Arduino/libraries/ProposedUavProtocol/library/src/ProposedUavProtocol.cpp:832-1570 | two idle devices with an index left and undisturbed messages complete in eight steps and agree, in both path modes |
| HonestPrograms.ProgramsAnswerEachOther | ESP32_Proposed_Protocol_Complete_v4/Arduino/libraries/ProposedUavProtocol/library/src/ProposedUavProtocol.cpp:832-1570 | each session program, given the messages the other one sends, sends the messages the other one was given, up to M4, and both end with one transcript and secret, in both path modes |
| HonestSession.HonestSessionIsAdmitted | ESP32_Proposed_Protocol_Complete_v4/Arduino/libraries/ProposedUavProtocol/library/src/ProposedUavProtocol.cpp:832-1570 | that session meets every assumption of the agreement theorems, unless it hits a hash collision |
| HonestSession.ForgedM2InvertsAChain | ESP32_Proposed_Protocol_Complete_v4/Arduino/libraries/ProposedUavProtocol/library/src/ProposedUavProtocol.cpp:1377-1428 | accepting another object under an index the initiator has used inverts one of its chains or exhibits a collision |
| HonestSession.ForgedM3InvertsAChain | ESP32_Proposed_Protocol_Complete_v4/Arduino/libraries/ProposedUavProtocol/library/src/ProposedUavProtocol.cpp:1011-1060 | the same for the responder's index and signed object |
| AuditLedger.Ledger.constructor | ESP32_Proposed_Protocol_Complete_v4/laptop_server/gcs_ledger_server.py:82-135 | a restart over existing files continues the chain, and keeps the invariant if the files satisfy it |
| AuditLedger.Ledger.AppendAudit | ESP32_Proposed_Protocol_Complete_v4/laptop_server/gcs_ledger_server.py:137-146 | appends one line that names the preceding block hash and its own |
| AuditLedger.Ledger.CommitRoot | ESP32_Proposed_Protocol_Complete_v4/laptop_server/gcs_ledger_server.py:160-191 | the half of a root upsert that survives a death before the append: the table changes, the log does not |
| AuditLedger.Ledger.UpsertRoot | ESP32_Proposed_Protocol_Complete_v4/laptop_server/gcs_ledger_server.py:148-206 | over any intact chain, even one the tables have run ahead of: a real change appends exactly one event, a repetition none, the result tells which, and a log that replays to the tables keeps doing so |
| AuditLedger.Ledger.CommitPath | ESP32_Proposed_Protocol_Complete_v4/laptop_server/gcs_ledger_server.py:216-232 | the same half of a path upsert |
| AuditLedger.Ledger.UpsertPath | ESP32_Proposed_Protocol_Complete_v4/laptop_server/gcs_ledger_server.py:208-243 | the same for paths, of which the log records the hash |
| AuditLedger.LogHoldsLastLogged | ESP32_Proposed_Protocol_Complete_v4/laptop_server/gcs_ledger_server.py:122-243 | over every history of writes, deaths between commit and append, and restarts, the log is one chain, and for every key it replays to the last change that was not cut off |
| AuditLedger.RootsReplayExactlyWhenLastWritesAreLogged | ESP32_Proposed_Protocol_Complete_v4/laptop_server/gcs_ledger_server.py:148-206 | over every such history: the log replays to the root table exactly when for every key the last row written is the last row logged |
| AuditLedger.PathsReplayExactlyWhenLastWritesAreLogged | ESP32_Proposed_Protocol_Complete_v4/laptop_server/gcs_ledger_server.py:208-243 | the same for the path table up to path hashes |
| AuditLedger.RetryingNeverRepairsRoot | ESP32_Proposed_Protocol_Complete_v4/laptop_server/gcs_ledger_server.py:160-171 | a root change whose event was lost stays lost whatever else is written, for as long as its key is only written with the same row |
| AuditLedger.RetryingNeverRepairsPath | ESP32_Proposed_Protocol_Complete_v4/laptop_server/gcs_ledger_server.py:216-219 | the same for paths |
| AuditLedger.InterruptedRootIsLost | ESP32_Proposed_Protocol_Complete_v4/laptop_server/gcs_ledger_server.py:160-206 | one root enrollment cut off, a restart and the device's retry: the row is in the table and the log is empty |
| AuditLedger.InterruptedPathIsLost | ESP32_Proposed_Protocol_Complete_v4/laptop_server/gcs_ledger_server.py:216-243 | the same for a path enrollment |
| AuditLedger.LastHashDeterminesLog | ESP32_Proposed_Protocol_Complete_v4/laptop_server/gcs_ledger_server.py:122-146 | the last block hash determines the whole log, its length included, or an entry hashes to the genesis value, or the extractor yields two different entries with one block hash |
| Repository.ServerReadsRequest | ESP32_Proposed_Protocol_Complete_v4/laptop_server/gcs_ledger_server.py:277-324 | the server reads back exactly the request that a client packed and sealed, for all four operations |
| Repository.OnlyPackedRequestsParse | ESP32_Proposed_Protocol_Complete_v4/laptop_server/gcs_ledger_server.py:277-324 | conversely, whatever parses is, up to padding bytes that nobody reads, the sealed packet of an acceptable request |
| Repository.UnsealedIsIgnored | ESP32_Proposed_Protocol_Complete_v4/Arduino/libraries/ProposedUavProtocol/library/src/GcsLedgerClient.cpp:107-123 | neither device nor server acts on a datagram that does not end with the code of all its other bytes |
| Repository.VerdictsByBytes | ESP32_Proposed_Protocol_Complete_v4/Arduino/libraries/ProposedUavProtocol/library/src/GcsLedgerClient.cpp:125-155 | among sealed datagrams exactly the not-found operation is a refusal, and exactly the expected operation, version and index are accepted |
| PathService.Serve | ESP32_Proposed_Protocol_Complete_v4/laptop_server/gcs_ledger_server.py:437-474 | one turn of the server loop over the ledger changes the tables and replies as the packet functions say, and drops what does not parse; the four lemmas below say what these replies are worth |
| PathService.TrafficKeepsWorld | ESP32_Proposed_Protocol_Complete_v4/laptop_server/gcs_ledger_server.py:437-474 | devices having one tree per credential version: under honest requests, however lost, delayed or duplicated, every recorded path and root and every reply ever sent is the owner's for that version |
| PathService.RecordedPathIsServed | ESP32_Proposed_Protocol_Complete_v4/laptop_server/gcs_ledger_server.py:466-474 | the query for a recorded path is answered by a packet that the client decodes to that path |
| PathService.RecordedRootIsServed | ESP32_Proposed_Protocol_Complete_v4/laptop_server/gcs_ledger_server.py:456-462 | the query for a recorded root is answered by a packet that the client decodes to the whole recorded row |
| PathService.UnrecordedIsRefused | ESP32_Proposed_Protocol_Complete_v4/laptop_server/gcs_ledger_server.py:456-474 | queries change no record, and for what is not recorded the one reply is a refusal |
| PathService.EnrollmentIsConfirmed | ESP32_Proposed_Protocol_Complete_v4/laptop_server/gcs_ledger_server.py:440-455 | an enrollment records exactly its row or path, touches nothing else, and its one reply confirms it to the device |
| PathService.ConfirmedPathIsRecorded | ESP32_Proposed_Protocol_Complete_v4/laptop_server/gcs_ledger_server.py:448-452 | an enrollment confirmation for index q means path q is recorded, or q is 0 and the root is |
| PathService.RootAckConfirmsIndexZero | ESP32_Proposed_Protocol_Complete_v4/laptop_server/gcs_ledger_server.py:440-446 | the acknowledgement of a root enrollment confirms path 0 before any path is recorded |
| PathService.ForeignAckConfirms | ESP32_Proposed_Protocol_Complete_v4/Arduino/libraries/ProposedUavProtocol/library/src/GcsLedgerClient.cpp:249-263 | the acknowledgement of another device's path, of the same version and index, confirms as well |
| PathService.ConfirmationIsReliableExactlyAboveZeroForItsAddressee | ESP32_Proposed_Protocol_Complete_v4/Arduino/libraries/ProposedUavProtocol/library/src/GcsLedgerClient.cpp:209-263 | a ledger reply confirming q implies that path q of a device is recorded, in every history of the ledger, exactly when q is not 0 and the reply was sent to that device, or q lies outside the tree |
| LedgerClient.Client.Receive | ESP32_Proposed_Protocol_Complete_v4/Arduino/libraries/ProposedUavProtocol/library/src/GcsLedgerClient.cpp:75-158 | one datagram is read into the buffer and judged there: origin, magic, tag, operation, version and index, where the last two are read even behind the end of a short datagram |
| LedgerClient.Client.SendAndReceive | ESP32_Proposed_Protocol_Complete_v4/Arduino/libraries/ProposedUavProtocol/library/src/GcsLedgerClient.cpp:46-165 | within four attempts the first datagram that is not ignored decides, a request that cannot be sent ends the exchange, and the buffer is left as the datagrams overwrote it |
| LedgerClient.ResponseArrived | ESP32_Proposed_Protocol_Complete_v4/Arduino/libraries/ProposedUavProtocol/library/src/GcsLedgerClient.cpp:107-158 | a response stands in the buffer, passed the judgement there, and arrived from the ledger in one of the attempts |
| LedgerProgress.StraysAreIdle | ESP32_Proposed_Protocol_Complete_v4/Arduino/libraries/ProposedUavProtocol/library/src/GcsLedgerClient.cpp:87-137 | foreign, oversized, short, unsealed datagrams and sealed ones of another operation have no effect on an exchange, whatever the buffer held |
| LedgerProgress.GoodResponseIsReturned | ESP32_Proposed_Protocol_Complete_v4/Arduino/libraries/ProposedUavProtocol/library/src/GcsLedgerClient.cpp:46-165 | strays, silence and loss only cost attempts: the first good response, in whichever attempt it comes, is returned whole |
| LedgerProgress.EndedExchangeReturnsNothing | ESP32_Proposed_Protocol_Complete_v4/Arduino/libraries/ProposedUavProtocol/library/src/GcsLedgerClient.cpp:62-88 | a sealed refusal before anything good, and a request that cannot be sent, end the exchange without a response |
| LedgerProgress.GoodRoundIsReturned | ESP32_Proposed_Protocol_Complete_v4/Arduino/libraries/ProposedUavProtocol/library/src/GcsLedgerClient.cpp:276-325 | rounds of refusals and silence only delay: the first round with a good root record ends the wait with that record |
| LedgerClient.PackRoot | ESP32_Proposed_Protocol_Complete_v4/Arduino/libraries/ProposedUavProtocol/library/src/GcsLedgerClient.cpp:174-193 | the root request is filled by offset into the sealed packet of that request |
| LedgerClient.PackGetRoot | ESP32_Proposed_Protocol_Complete_v4/Arduino/libraries/ProposedUavProtocol/library/src/GcsLedgerClient.cpp:280-292 | the root query is filled by offset into the sealed packet of that request |
| LedgerClient.PackPath | ESP32_Proposed_Protocol_Complete_v4/Arduino/libraries/ProposedUavProtocol/library/src/GcsLedgerClient.cpp:230-247 | the path request is filled by offset into the sealed packet of that request |
| LedgerClient.PackGetPath | ESP32_Proposed_Protocol_Complete_v4/Arduino/libraries/ProposedUavProtocol/library/src/GcsLedgerClient.cpp:337-350 | the path query is filled by offset into the sealed packet of that request |
| LedgerClient.Client.EnrollOwnRoot | ESP32_Proposed_Protocol_Complete_v4/Arduino/libraries/ProposedUavProtocol/library/src/GcsLedgerClient.cpp:167-207 | sends the sealed packet of the signer's identifier and root; succeeds exactly on an 84-byte acknowledgement of that version with status zero, which then arrived |
| LedgerClient.Client.EnrollOwnPaths | ESP32_Proposed_Protocol_Complete_v4/Arduino/libraries/ProposedUavProtocol/library/src/GcsLedgerClient.cpp:209-274 | the packets are the sealed requests of the range with their extracted paths, in order; it succeeds exactly when the range is sound, the tree is built and every exchange of the range confirms its index |
| LedgerClient.ConfirmationArrived | ESP32_Proposed_Protocol_Complete_v4/Arduino/libraries/ProposedUavProtocol/library/src/GcsLedgerClient.cpp:249-263 | behind every confirmed index stands a confirmation of that index which arrived in its exchange |
| LedgerClient.Client.FetchPeerPath | ESP32_Proposed_Protocol_Complete_v4/Arduino/libraries/ProposedUavProtocol/library/src/GcsLedgerClient.cpp:327-380 | sends the sealed query and returns a path exactly when the exchange ends with a path record of that peer, version and index, and then that record's path |
| LedgerClient.Client.FetchPeerRoot | ESP32_Proposed_Protocol_Complete_v4/Arduino/libraries/ProposedUavProtocol/library/src/GcsLedgerClient.cpp:276-325 | the same for the root: the first of up to 120 rounds with an accepted response decides, and the record arrived in one of them |
| LedgerProgress.ServedRootIsFetched | ESP32_Proposed_Protocol_Complete_v4/Arduino/libraries/ProposedUavProtocol/library/src/GcsLedgerClient.cpp:276-325 | the peer's record, once it arrives, is the row with which the fetch ends |
| LedgerProgress.ServedPathIsFetched | ESP32_Proposed_Protocol_Complete_v4/Arduino/libraries/ProposedUavProtocol/library/src/GcsLedgerClient.cpp:327-380 | the path, once it arrives, is the path with which the fetch ends |
| LedgerProgress.AcknowledgedPathsEnroll | ESP32_Proposed_Protocol_Complete_v4/Arduino/libraries/ProposedUavProtocol/library/src/GcsLedgerClient.cpp:209-274 | if every path of the range is acknowledged in some attempt, behind strays only, the enrollment loop confirms the whole range |
| PathService.ReservableIsEnrolled | ESP32_Proposed_Protocol_Complete_v4/Arduino/libraries/ProposedUavProtocol/library/src/ProposedUavProtocol.cpp:264-282 | the counter hands out no index outside the range that was enrolled |
| PathService.ReservableIsRecorded | ESP32_Proposed_Protocol_Complete_v4/Arduino/libraries/ProposedUavProtocol/library/src/GcsLedgerClient.cpp:209-274 | once the enrollment loop has succeeded on replies that the ledger sent to this device, every index above 0 that the counter can return has its path recorded |
| Repository.FetchedPathIsTheRecord | ESP32_Proposed_Protocol_Complete_v4/Arduino/libraries/ProposedUavProtocol/library/src/GcsLedgerClient.cpp:327-380 | a server reply yields a path exactly if it is the path record asked for, and then all of it |
| Repository.OnlyPathRecordsAreFetched | ESP32_Proposed_Protocol_Complete_v4/Arduino/libraries/ProposedUavProtocol/library/src/GcsLedgerClient.cpp:327-380 | any datagram at all that yields a path is, up to padding, the sealed path record of that peer, version and index with that path |
| Repository.OnlyRootRecordsAreFetched | ESP32_Proposed_Protocol_Complete_v4/Arduino/libraries/ProposedUavProtocol/library/src/GcsLedgerClient.cpp:276-325 | any datagram at all that yields a root row is, up to padding, the sealed root record of that peer and version with that row |
| Repository.FetchedRootIsTheRecord | ESP32_Proposed_Protocol_Complete_v4/Arduino/libraries/ProposedUavProtocol/library/src/GcsLedgerClient.cpp:276-325 | the same for root records |
| Repository.ConfirmationIsAnAck | ESP32_Proposed_Protocol_Complete_v4/Arduino/libraries/ProposedUavProtocol/library/src/GcsLedgerClient.cpp:107-158 | an enrollment is confirmed exactly by an acknowledgement with the expected version and index |
| Repository.OnlyAcknowledgementsConfirm | ESP32_Proposed_Protocol_Complete_v4/Arduino/libraries/ProposedUavProtocol/library/src/GcsLedgerClient.cpp:249-263 | any datagram at all confirms exactly if it is a sealed 84-byte acknowledgement of that version and index with status zero |
| PathService.FetchedRootIsTheTree | ESP32_Proposed_Protocol_Complete_v4/Arduino/libraries/ProposedUavProtocol/library/src/GcsLedgerClient.cpp:276-325 | a fetched root is the root of that peer's tree for that version |
| PathService.FetchedPathVerifies | ESP32_Proposed_Protocol_Complete_v4/Arduino/libraries/ProposedUavProtocol/library/src/GcsLedgerClient.cpp:327-380 | completed fetches of path and root yield exactly the signer's, so every signature under that index verifies with them |
| RepositorySession.RepositorySessionCompletes | ESP32_Proposed_Protocol_Complete_v4/Arduino/libraries/ProposedUavProtocol/library/src/ProposedUavProtocol.cpp:782-807 | repository mode end to end: with both next indices recorded, the ledger's replies to the two path queries carry paths with which the undisturbed session of the two devices completes and agrees |
| CredentialLedger.KeysAreDistinct | APQE_CDA_Complete_v4/fabric/chaincode-go/main.go:36-42 | credential keys are injective in identity and slot, and never collide with index keys, inside the one flat key space |
| CredentialLedger.SmartContract.PutCredential | APQE_CDA_Complete_v4/fabric/chaincode-go/main.go:44-110 | commits the whole effect of the put on table and index, or reports the first failing check and writes nothing |
| CredentialLedger.SmartContract.DeleteCredential | APQE_CDA_Complete_v4/fabric/chaincode-go/main.go:162-178 | removes record and index entry together, or reports why not and writes nothing |
| CredentialLedger.PutKeepsSound | APQE_CDA_Complete_v4/fabric/chaincode-go/main.go:44-110 | after a put every index entry still leads to a record that carries the indexed TID |
| CredentialLedger.DeleteKeepsSound | APQE_CDA_Complete_v4/fabric/chaincode-go/main.go:162-178 | the same after a delete |
| CredentialLedger.PutSucceedsExactlyWhenValid | APQE_CDA_Complete_v4/fabric/chaincode-go/main.go:44-74 | in a sound table a put succeeds exactly if all five hex fields have their lengths and digits |
| CredentialLedger.PutStoresOneRecord | APQE_CDA_Complete_v4/fabric/chaincode-go/main.go:75-110 | a put answers for its own identity and slot from then on, and leaves the answer for every other unchanged |
| CredentialLedger.PutIndexesOneTid | APQE_CDA_Complete_v4/fabric/chaincode-go/main.go:88-108 | it leads its TID to its credential, withdraws the TID of the credential it replaces, and leaves every other TID query unchanged |
| CredentialLedger.DeleteRemovesOneRecord | APQE_CDA_Complete_v4/fabric/chaincode-go/main.go:162-178 | a delete ends the answer for its own identity and slot and leaves every other unchanged |
| CredentialLedger.DeleteRemovesOneTid | APQE_CDA_Complete_v4/fabric/chaincode-go/main.go:162-178 | the same for TID queries |
| CredentialLedger.QueriesFollowHistory | APQE_CDA_Complete_v4/fabric/chaincode-go/main.go:44-178 | over all runs: a query by identity and slot answers with the last valid put that has not been deleted since, or not found |
| CredentialLedger.TidQueryIsTruthful | APQE_CDA_Complete_v4/fabric/chaincode-go/main.go:134-160 | in a sound table a TID query returns a live record with that very TID, or not found exactly when there is no entry; the missing-credential error is unreachable |
| CredentialLedger.PutKeepsCompleteExactlyWhenTidIsFree | APQE_CDA_Complete_v4/fabric/chaincode-go/main.go:88-108 | a put leaves the index the exact inverse of the records exactly when no other key holds the TID |
| CredentialLedger.ReachableTables | APQE_CDA_Complete_v4/fabric/chaincode-go/main.go:44-178 | every table reachable by puts and deletes is sound, and complete if no put reused a TID held elsewhere |
| CredentialLedger.RepeatedPutChangesNothing | APQE_CDA_Complete_v4/fabric/chaincode-go/main.go:75-110 | a retransmitted put leaves the table of a single one |
| CredentialLedger.SharedTidHidesCredential | APQE_CDA_Complete_v4/fabric/chaincode-go/main.go:93-108 | two credentials sharing a TID, the second deleted: the first is still stored but its TID is not found |
| CredentialCodec.DecodableExactlyWhenValid | APQE_CDA_Complete_v4/fabric/chaincode-go/main.go:25-34 | a string passes the chaincode's hex check exactly when the gateway can decode it to that length |
| CredentialCodec.SerializeCredential | APQE_CDA_Complete_v4/Arduino/libraries/ApqeCdaProtocol/src/FabricUdpClient.cpp:27-37 | fills the 928-byte record field by field |
| CredentialCodec.HexRoundTrip | APQE_CDA_Complete_v4/fabric/gateway-go/main.go:250-295 | hex decoding inverts hex encoding on all byte strings |
| CredentialCodec.CredentialRoundTrip | APQE_CDA_Complete_v4/fabric/gateway-go/main.go:250-295 | device record, payload, ledger strings, payload and device record again: every field and the slot survive, and the chaincode's checks pass |
| CredentialCodec.StorableExactlyWhenSendable | APQE_CDA_Complete_v4/fabric/gateway-go/main.go:250-295 | the chaincode stores exactly the credentials that the gateway can send back, and those have 928 bytes |
| FabricClient.GatewayReadsRequest | APQE_CDA_Complete_v4/fabric/gateway-go/main.go:211-232 | the gateway recovers every field of every framed request of any payload length |
| FabricClient.OnlyFramedRequestsParse | APQE_CDA_Complete_v4/fabric/gateway-go/main.go:211-232 | conversely, whatever parses is byte for byte the sealed frame of the request it parses to |
| FabricClient.AcceptedIsSealed | APQE_CDA_Complete_v4/Arduino/libraries/ApqeCdaProtocol/src/FabricUdpClient.cpp:117-143 | what either side accepts starts with magic, version, operation and number and ends with the code of all its other bytes |
| Gateway.Serve | APQE_CDA_Complete_v4/fabric/gateway-go/main.go:328-403 | answers one request over the chaincode's state in place, as the request function says |
| Gateway.EnrollmentIsPut | APQE_CDA_Complete_v4/fabric/gateway-go/main.go:333-357 | in a sound table an enrollment is accepted and has exactly the effect of the chaincode's put |
| Gateway.EnrolledCredentialComesBack | APQE_CDA_Complete_v4/fabric/gateway-go/main.go:328-403 | an enrolled credential comes back unchanged under identity and slot, and under its TID if the index was exact or the put wrote |
| Gateway.QueriesReportTheTable | APQE_CDA_Complete_v4/fabric/gateway-go/main.go:359-395 | over a sound table both queries report the payload of the record found, or not found, and fail in no other way |
| Gateway.QueriesReportTheHistory | APQE_CDA_Complete_v4/fabric/gateway-go/main.go:359-378 | over all runs of the chaincode the query by identity and slot reports the last put not deleted |
| Gateway.BadExactlyWhenUnhandled | APQE_CDA_Complete_v4/fabric/gateway-go/main.go:328-403 | a request is bad exactly if its operation or payload length is none the gateway knows, and then without effect |
| Gateway.RetransmittedEnrollmentChangesNothing | APQE_CDA_Complete_v4/fabric/gateway-go/main.go:338-342 | handling a retransmitted enrollment changes neither answer nor table |
| FabricClient.Client.Transact | APQE_CDA_Complete_v4/Arduino/libraries/ApqeCdaProtocol/src/FabricUdpClient.cpp:53-160 | one request number per call in wrapping arithmetic, the same frame at most six times until one cannot be sent, and the first matching datagram decides status and payload |
| FabricClient.FirstMatchDecides | APQE_CDA_Complete_v4/Arduino/libraries/ApqeCdaProtocol/src/FabricUdpClient.cpp:92-152 | a transaction is decided exactly if some datagram matches before a frame cannot be sent, and then by the first one, in whichever of the attempts it comes |
| FabricClient.ResponseMatchesOpAndId | APQE_CDA_Complete_v4/Arduino/libraries/ApqeCdaProtocol/src/FabricUdpClient.cpp:117-143 | a response is accepted exactly by transactions of its operation and number |
| FabricClient.OnlyBuiltResponsesAreAccepted | APQE_CDA_Complete_v4/Arduino/libraries/ApqeCdaProtocol/src/FabricUdpClient.cpp:117-143 | a datagram is accepted exactly if it is, byte for byte, a sealed response to that operation and number |
| Gateway.RepliesMatchExactlyWithoutTwins | APQE_CDA_Complete_v4/Arduino/libraries/ApqeCdaProtocol/src/FabricUdpClient.cpp:117-143 | among the gateway's own answers to all requests it was ever sent, over every state of the ledger, whatever a transaction accepts answers its request exactly when no other of these requests shares operation and number |
| Gateway.TransactionReturnsItsAnswer | APQE_CDA_Complete_v4/Arduino/libraries/ApqeCdaProtocol/src/FabricUdpClient.cpp:117-150 | when only the gateway's answers arrive and the request has no twin, the datagram that decides a transaction carries status and payload of the answer to that very request |
| Gateway.DelayedAnswerIsTaken | APQE_CDA_Complete_v4/Arduino/libraries/ApqeCdaProtocol/src/FabricUdpClient.cpp:117-150 | a device that asked for one identity, rebooted and asks for another accepts the delayed answer: status OK, and the record of the first identity |
| FabricClient.OneBootHasNoTwins | APQE_CDA_Complete_v4/Arduino/libraries/ApqeCdaProtocol/src/FabricUdpClient.cpp:70-72 | within one boot and fewer than 2^32 transactions no request has such a twin |
| FabricClient.RebootCreatesTwins | APQE_CDA_Complete_v4/Arduino/libraries/ApqeCdaProtocol/src/FabricUdpClient.cpp:7-15 | numbers restart with every boot: two boots that each query once, for different identities, are twins |
| ApqeSessions.SoftwarePuf.Begin | APQE_CDA_Complete_v4/Arduino/libraries/ApqeCdaProtocol/src/SoftwarePuf.cpp:15-37 | the mask fields are the ones derived from the device's factory contents |
| ApqeSessions.SoftwarePuf.Map | APQE_CDA_Complete_v4/Arduino/libraries/ApqeCdaProtocol/src/SoftwarePuf.cpp:49-56 | the XOR loop is the device's commutative map |
| ApqeSessions.SoftwarePuf.MapReversibly | APQE_CDA_Complete_v4/Arduino/libraries/ApqeCdaProtocol/src/SoftwarePuf.cpp:58-93 | map and inverse are one XOR with the key-dependent mask |
| ApqeSessions.MaskPair | APQE_CDA_Complete_v4/Arduino/libraries/ApqeCdaProtocol/src/ApqeProtocol.cpp:240-258 | both halves are masked in place and nothing else is touched |
| ApqeSessions.Protocol.EnrollmentCredential | APQE_CDA_Complete_v4/Arduino/libraries/ApqeCdaProtocol/src/ApqeProtocol.cpp:69-89 | builds TID, helper value and verification hash for the slot's own challenge; SlotsHaveOwnTids says that no other slot has it |
| ApqeBinding.SlotsHaveOwnTids | APQE_CDA_Complete_v4/Arduino/libraries/ApqeCdaProtocol/src/ApqeProtocol.cpp:59-89 | two credentials of one device with the same TID are of the same slot, or their challenge inputs collide |
| ApqeBinding.LoopSharesNoTids | APQE_CDA_Complete_v4/Arduino/libraries/ApqeCdaProtocol/src/ApqeProtocol.cpp:111-133 | the enrollment loop of a device reuses no TID, unless two challenge inputs collide |
| ApqeBinding.EverySlotIsFound | APQE_CDA_Complete_v4/Arduino/libraries/ApqeCdaProtocol/src/ApqeProtocol.cpp:111-133 | after that loop every slot of the device is found on the ledger, under identity and slot and under its own TID, with the credential built for it |
| ApqeBinding.DeviceSecretsBind | APQE_CDA_Complete_v4/Arduino/libraries/ApqeCdaProtocol/src/SoftwarePuf.cpp:15-47 | equal identities, masks, seeds or secrets mean equal device contents, unless the named inputs collide |
| ApqeBinding.MapsBind | APQE_CDA_Complete_v4/Arduino/libraries/ApqeCdaProtocol/src/SoftwarePuf.cpp:49-93 | two devices whose map sends one input to one image share the secrets behind that map, unless named inputs collide |
| ApqeBinding.MaskInputsAreSeparate | APQE_CDA_Complete_v4/Arduino/libraries/ApqeCdaProtocol/src/SoftwarePuf.cpp:24-76 | the labelled inputs of masks, seeds, challenges and identities of any two devices never coincide |
| ApqeBinding.VerifierCoversExactlyThreeFields | APQE_CDA_Complete_v4/Arduino/libraries/ApqeCdaProtocol/src/ApqeProtocol.cpp:91-109 | a record under another's verifier passes exactly if identity, helper value and public key are unchanged, unless the inputs collide; the TID is not covered |
| ApqeBinding.SentM1IsSealed | APQE_CDA_Complete_v4/Arduino/libraries/ApqeCdaProtocol/src/ApqeProtocol.cpp:268-319 | M1 leaves exactly with the device's own verified record and its peer's, and is then the four encryptions, each under its own coins, with the hash of the plaintexts |
| ApqeBinding.SessionHashBinds | APQE_CDA_Complete_v4/Arduino/libraries/ApqeCdaProtocol/src/ApqeProtocol.cpp:365-372 | equal session keys have equal temporary keys and nonces, each in its place, unless the inputs collide |
| ApqeSessions.MessagesRoundTrip | APQE_CDA_Complete_v4/Arduino/libraries/ApqeCdaProtocol/src/ApqeProtocol.cpp:300-372 | M1, M2 and M3 are read at the offsets at which they were written |
| ApqeSessions.Protocol.FillM1 | APQE_CDA_Complete_v4/Arduino/libraries/ApqeCdaProtocol/src/ApqeProtocol.cpp:290-319 | four encrypted blocks and H1 over the plaintexts |
| ApqeSessions.Protocol.ProcessM1 | APQE_CDA_Complete_v4/Arduino/libraries/ApqeCdaProtocol/src/ApqeProtocol.cpp:412-476 | decryption, H1, TID query, record checks and PUF maps turn M1 into M2, or stop at the first failing check |
| ApqeSessions.Protocol.ProcessM2 | APQE_CDA_Complete_v4/Arduino/libraries/ApqeCdaProtocol/src/ApqeProtocol.cpp:335-372 | H2 and PUF maps turn M2 into M3 and keys, or stop |
| ApqeSessions.Protocol.RunInitiatorSession | APQE_CDA_Complete_v4/Arduino/libraries/ApqeCdaProtocol/src/ApqeProtocol.cpp:260-380 | the initiator's session succeeds exactly when records, M2 and H2 are right, and leaves the messages and keys of the handshake functions |
| ApqeSessions.Protocol.RunResponderSession | APQE_CDA_Complete_v4/Arduino/libraries/ApqeCdaProtocol/src/ApqeProtocol.cpp:404-511 | the responder's session succeeds exactly when M1, query, records, M3 and H3 are right, with those keys |
| ApqeHandshake.MapsCommute | APQE_CDA_Complete_v4/Arduino/libraries/ApqeCdaProtocol/src/SoftwarePuf.cpp:49-56 | the commutative maps of two devices commute |
| ApqeHandshake.TidDeterminesHelper | APQE_CDA_Complete_v4/Arduino/libraries/ApqeCdaProtocol/src/ApqeProtocol.cpp:69-89 | two credentials of one device with the same TID are the same credential |
| ApqeHandshake.M1Answered | APQE_CDA_Complete_v4/Arduino/libraries/ApqeCdaProtocol/src/ApqeProtocol.cpp:404-462 | on an honest M1 the responder unmasks the initiator's challenge, nonce and helper value, and H1 passes |
| ApqeHandshake.M2Answered | APQE_CDA_Complete_v4/Arduino/libraries/ApqeCdaProtocol/src/ApqeProtocol.cpp:335-372 | on the responder's M2 the initiator recovers both keys, and H2 passes |
| ApqeHandshake.KeyAgreement | APQE_CDA_Complete_v4/Arduino/libraries/ApqeCdaProtocol/src/ApqeProtocol.cpp:260-511 | if the TID query answers truthfully or not at all, the handshake completes with all three hash checks passed and equal keys on both sides exactly when it answers, for all secrets, nonces, coins and slots |
| ApqeHandshake.M1NeedsNoInitiatorSecret | APQE_CDA_Complete_v4/Arduino/libraries/ApqeCdaProtocol/src/ApqeProtocol.cpp:412-452 | for any four plaintexts under the responder's public key, M1 is answered exactly when H1 is their plain hash and the record of that TID is the expected peer's and verifies: no secret of the initiator enters |
| ApqeHandshake.M2AcceptedExactlyWhenMasked | APQE_CDA_Complete_v4/Arduino/libraries/ApqeCdaProtocol/src/ApqeProtocol.cpp:335-352 | an initiator answers exactly the M2s that are masked over some three 32-byte values, whoever chose them |
| ApqeHandshake.M3AcceptedExactlyWhenMasked | APQE_CDA_Complete_v4/Arduino/libraries/ApqeCdaProtocol/src/ApqeProtocol.cpp:490-511 | a responder accepts exactly the M3s that are masked over some 32-byte value, whoever chose it, and ends with that value's image under its own map |
| ApqeHandshake.AlteredM1IsAnsweredExactlyWhenFieldsSurvive | APQE_CDA_Complete_v4/Arduino/libraries/ApqeCdaProtocol/src/ApqeProtocol.cpp:296-319 | an initiator's M1 that keeps its hash but has arbitrary other ciphertexts is answered exactly when they still decrypt to the initiator's fields and its record passes, or the two plaintexts collide |
| ApqeHandshake.AnswerIsTakenExactlyWhenSidesMatch | APQE_CDA_Complete_v4/Arduino/libraries/ApqeCdaProtocol/src/ApqeProtocol.cpp:335-352 | whatever M1 the responder answered, an initiator takes the answer exactly when both have the same nonce and its map of the responder's key is the key the responder holds, or an explicit input pair collides; then they share that key and the second nonce |
| ApqeHandshake.SentM3IsTakenExactlyWhenSidesMatch | APQE_CDA_Complete_v4/Arduino/libraries/ApqeCdaProtocol/src/ApqeProtocol.cpp:354-380 | whatever M2 the initiator took, a waiting responder takes its M3 exactly when both hold the same first key, nonces and image of the initiator's key, or one of two explicit input pairs collides; then they end with the same keys |
| ApqeHandshake.RecordIsOwners | APQE_CDA_Complete_v4/Arduino/libraries/ApqeCdaProtocol/src/ApqeProtocol.cpp:268-288 | on a ledger of any number of devices with distinct identities, a record fetched by identity and slot is the credential its owner built for that slot |
| ApqeHandshake.LedgerLookupIsTruthful | APQE_CDA_Complete_v4/Arduino/libraries/ApqeCdaProtocol/src/ApqeProtocol.cpp:441-452 | a TID query on a sound table finds a credential that carries this TID and was built by one of the devices |
| ApqeHandshake.KeyAgreementThroughLedger | APQE_CDA_Complete_v4/Arduino/libraries/ApqeCdaProtocol/src/ApqeProtocol.cpp:260-511 | end to end over every reachable ledger, whatever devices of distinct identities enrolled there: two of them with the slot enrolled end with one session key exactly when the query for the initiator's TID answers with a record of the initiator's identity |
| ApqeHandshake.KeyAgreementWithoutSharedTids | APQE_CDA_Complete_v4/Arduino/libraries/ApqeCdaProtocol/src/ApqeProtocol.cpp:260-511 | in particular always when no put reused a TID that another key held |
| ApqeHandshake.SharedTidBreaksHandshake | APQE_CDA_Complete_v4/Arduino/libraries/ApqeCdaProtocol/src/ApqeProtocol.cpp:441-452 | three enrollments, the last by a third device whose credential has the initiator's TID: the handshake of the other two fails, for all nonces and coins |

## Left out

- Internals of SHA-256, HMAC, ML-KEM and Kyber and their error returns: library code; their failure is an abandoned session of the step machine.
- Wi-Fi, sockets, serial output, heap reports, metrics and `millis`: a receive loop runs over a finite stream of arrivals, and running out of it is the timeout.
- Null-pointer checks and allocation failure, except for the tree buffer, whose absence is modelled.
- Zeroing of secrets at the end of a session, other than the seed that `buildTree` erases.
- The transport's session number, its message types and the reassembly underneath a session: a delivery is the reassembled content of the receive buffer. Transport and sessions are proved separately.
- Send failures inside a protocol session: they end it like a timeout, which the step machine covers with its abandoning steps.
- The RESULT message and the session-key comparison of the APQE stack that travels in it: measurement only; sessions end with M4 and M3.
- `validatePeerRecord` beyond the version: status and wall-clock expiry; the peer record is constant and valid.
- `deriveLmsSeed`, the PUF and fuzzy-extractor hook and `prepareLmsAndLedger`: the signing seed is an input, and its failed reconstruction after a reservation is modelled.
- The APQE copies of the transport and of the SHA-256 helpers: the same algorithms with other constants.
- SQLite, JSON encoding and Fabric's endorsement, ordering and concurrent writes: tables are maps, stored values are tagged, and transactions are atomic and sequential.
- Expired or suspended credential records at the ledger: rows carry status and expiry unread.
- Serial-log parsers, provisioning and validation scripts, sketches and the Verifpal models.
- PathService.ReservableIsRecorded: says nothing about index 0, because there the property is false; ConfirmationIsReliableExactlyAboveZeroForItsAddressee gives the exact condition.
- Gateway.Serve: error texts are error kinds, so the text match for not found is a function of the kind.
- Tree height, chain length and fragment size are the constants of the source, not parameters.
- A death in the middle of writing an audit line: an append happens or not.
- LedgerClient.Client.EnrollOwnRoot: any acknowledgement of the version counts as confirmation, so success does not say that the root is recorded.
- Sessions.Device.RunInitiatorSession: a power loss inside a session is not in the method; Programs.ProgramsAgree cuts its list of actions instead.
