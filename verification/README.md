# Verified protocol cores

A Dafny model of five protocol and codec cores of thumos, with proofs over every input
or over every run of their state machines. Cryptographic primitives are symbolic or
uninterpreted; clocks, randomness and the peer are parameters.

| files | crate | models |
|---|---|---|
| `Krypta*.dfy` | krypta | the symmetric ratchet with its skipped-key cache, X3DH, and two-party sessions over a hostile network |
| `Stp*.dfy` | kelyphos | frames, CRC-16 and what it detects, the octet-at-a-time receive parser, corruption, the seven-slot transmit window |
| `Gsm7*.dfy`, `Sms*.dfy` | klesis-core, klesis | septet packing, user data headers, BCD addresses, SMS-DELIVER decoding, user data encoding |
| `Eapol.dfy`, `Wpa*.dfy` | aither-core | EAPOL-Key framing, key derivation, the supplicant's 4-way handshake |
| `Text.dfy`, `Dns*.dfy`, `Packet*.dfy` | asphaleia-core, asphaleia | query names, the blocklist, ordered rules, the filter |
| `At*.dfy` | klesis, klesis-core | the AT line reader and command loop |
| `Bytes.dfy`, `Wrappers.dfy` | | octets as numbers and bits, result datatypes |

Mutable objects of the source are classes whose methods equate the new abstract value
(`View()`) with a specification function of the old one. Theorems are lemmas about
those functions.

## How the model reads the source

- Keys are terms: an HMAC or HKDF output equals another only if built the same way. A
  box opens exactly under the key and nonce that sealed it. X25519 is commutative on
  scalars (up to sign) and fails on low-order points. It does not see all of a public
  value: the top bit of the octets and a component of low order are forgotten. An Ed25519
  key is its Montgomery form and the sign bit that the conversion forgets.
- Whole-run safety assumes ideal AEAD: a box under a message key of the session was sealed
  by one of its two sides. The network may otherwise deliver anything in any order, to
  either side, messages handed back to their own sender included.
- Words, octets under exclusive or, and IPv4 addresses are sequences of bits. Octets
  that are only compared or added are numbers below 256.
- HMAC-SHA1 in WPA2 is an arbitrary function to 20-octet tags, passed to every operation.
- Strings of the filter and of the AT session are their UTF-8 octets. ASCII lower case
  and suffix tests act alike on octets and on characters.
- The GSM-7 theorems hold for every alphabet whose base table has 128 entries and whose
  extension codes are distinct; the shipped tables are one.
- A modem transport is the list of what successive passes of the line reader meet: an
  octet, an empty read, a failing channel, or the end of the reader's time. Whether the
  channel takes a command is a parameter.

## What does not hold, and exactly when it does

- The header checksum octet of an STP frame is neither covered by the CRC nor compared
  by the receiver: an encoding with a single changed octet, the start and length octets
  included, is surfaced as it stands if and only if that octet is the checksum
  (`StpCorruption.OneOctetSlipsThroughExactly`).
- A changed length octet re-frames the stream. The frame the new length declares is
  surfaced if and only if its own CRC matches (`StpCorruption.DeclaredLengthVerdict`),
  and one octet can be enough to surface a frame that nobody sent
  (`StpCorruption.ShortenedFrameSlips`).
- Two flipped bits pass the CRC if and only if they are a multiple of 32767 bits apart
  (`StpPeriod.TwoBitErrorsExactly`), which every frame of at least 4091 payload octets
  has room for (`StpCorruption.LongFrameSlips`).
- Sequence numbers in flight can coincide when acknowledgements arrive out of order
  (`StpWindow.OutOfOrderAcksCollide`). A step keeps them distinct if and only if it does
  not enqueue while the next number is in flight (`StpWindow.DistinctKeptExactly`).
- Order independence of the ratchet ends at 1025 messages
  (`KryptaDelivery.OrderIndependenceLimit`), and agreement with recomputation ends with
  the genuine message of counter 2^32 - 1, at which the counter wraps
  (`KryptaDelivery.CacheSoundExactly`).
- Derived keys bind the secrets behind an initiator's message, not its octets
  (`KryptaX3dh.KeysBindTheInitiator`): with another sign bit, top bit or low-order
  component the message is another one, names another identity, and yields the same keys
  (`KryptaX3dh.RespelledMessagesShareKeys`).
- EAPOL frames survive encoding only when well formed, and octets survive parsing only
  when canonical (`Eapol.ParseOfEncode`, `Eapol.EncodeOfParse`), so Message 3 is checked
  over the wire octets exactly when they are canonical (`Eapol.MicCoversTheWire`). Octets
  with slack behind them parse alike and are not (`Eapol.SlackIsNotCanonical`).
- A blocklist entry can block something if and only if it has no empty piece: one with a
  trailing dot blocks nothing (`DnsBlocklist.EntryIsEffectiveExactly`,
  `DnsBlocklist.TrailingDotBlocksNothing`).
- "*." before an entry makes no difference if and only if the entry does not already begin
  with it: one is taken off and no more (`DnsBlocklist.StarIsOptionalExactly`).
- Labels with dots inside them are matched by the pieces of the dotted form. Such a name
  can be blocked by an entry that is no label suffix of it, and never escapes one that is
  (`DnsBlocklist.BlockedExactly`, `DnsBlocklist.CoveredIsBlocked`).
- A line of 256 octets or more before its line feed is not read as that line
  (`AtStream.LinesAreReadExactly`), and a read that runs out of time loses the unfinished
  line it had begun (`AtStream.OneRead`).
- The documentation of the query decoder speaks of compression pointers only; label
  lengths from 64 to 191, which RFC 1035 reserves, are accepted as lengths. The model
  does as the code does (`DnsName.LabelsExactly`).

## Model

| member | source | states |
|---|---|---|
| `KryptaKeys.MessageKeysDistinct` | crates/krypta/src/ratchet.rs:281-290 | no two indices of one chain have the same message key |
| `KryptaKeys.ChainsNeverMeet` | crates/krypta/src/ratchet.rs:281-290 | chains expanded from different roots never share a message key |
| `KryptaKeys.NonceOctets` | crates/krypta/src/ratchet.rs:306-309 | the twelve octets of the nonce: the counter from its least significant octet on, then zeros |
| `KryptaKeys.CounterNonceInjective` | crates/krypta/src/ratchet.rs:306-309 | distinct 32-bit counters never share a nonce |
| `KryptaRatchet.RatchetState.constructor` | crates/krypta/src/ratchet.rs:101-107 | a fresh ratchet stands at the root with counter 0 and an empty cache |
| `KryptaRatchet.RatchetState.EncryptMessage` | crates/krypta/src/ratchet.rs:131-153 | the message is sealed under the current message key and nonce; chain and wrapping counter advance by one |
| `KryptaRatchet.RatchetState.DecryptMessage` | crates/krypta/src/ratchet.rs:185-235 | the whole new state and result: late counters from the cache, jumps of at most 1024 committed only after authentication, otherwise an error and no change; the cache stays within 1024 |
| `KryptaRatchet.RatchetState.DeriveAhead` | crates/krypta/src/ratchet.rs:201-214 | the derivation loop yields the chain key at the target and the keys of every counter passed |
| `KryptaRatchet.RatchetState.DecryptSkippedMessage` | crates/krypta/src/ratchet.rs:239-257 | a late message opens under its cached key, which is removed, or changes nothing |
| `KryptaRatchet.RatchetState.StoreAllSkipped` | crates/krypta/src/ratchet.rs:229-231 | storing the pending keys one by one with eviction leaves the newest 1024 of old and pending keys |
| `KryptaRatchet.RatchetState.StoreSkipped` | crates/krypta/src/ratchet.rs:263-268 | one key is appended and the oldest dropped beyond 1024 |
| `KryptaRatchet.JumpEntries` | crates/krypta/src/ratchet.rs:201-231 | the keys a jump collects are those recomputed from the root, and exactly the skipped counters become cached |
| `KryptaRatchet.NewestKeepsTheLargest` | crates/krypta/src/ratchet.rs:259-268 | every counter lost to eviction is smaller than every counter kept |
| `KryptaRatchet.ConsumeEntry` | crates/krypta/src/ratchet.rs:239-257 | consuming a cached entry removes its counter and no other and keeps the order |
| `KryptaRatchet.DecryptKeepsCacheSound` | crates/krypta/src/ratchet.rs:185-268 | a decrypt keeps the receive state in agreement with recomputation from the root unless it accepts counter 2^32 - 1 |
| `KryptaRatchet.FailedDecryptIsANoOp` | crates/krypta/src/ratchet.rs:185-257 | a failing decrypt leaves the state unchanged |
| `KryptaDelivery.AcceptsExactly` | crates/krypta/src/ratchet.rs:185-279 | a message is accepted with text p if and only if it is the genuine message of its counter and that counter is cached or at most 1024 ahead |
| `KryptaDelivery.AcceptanceEffect` | crates/krypta/src/ratchet.rs:185-268 | what one acceptance does to the set of cached counters, including exactly what eviction may lose |
| `KryptaDelivery.CacheSoundExactly` | crates/krypta/src/ratchet.rs:185-268 | told before the call: the receive state keeps agreeing with recomputation from the root (ascending counters below the chain, at most 1024, every key as recomputed) if and only if the message is not the servable genuine message of counter 2^32 - 1 |
| `KryptaDelivery.EncryptAllIsGenuine` | crates/krypta/src/ratchet.rs:131-153 | the n-th message of an honest sender is the genuine message of counter n, for any number below 2^32 |
| `KryptaDelivery.OrderIndependence` | crates/krypta/src/ratchet.rs:131-268 | up to 1025 messages in any order all decrypt to their own texts and end in the state of in-order delivery |
| `KryptaDelivery.OrderIndependenceLimit` | crates/krypta/src/ratchet.rs:131-268 | every order succeeds if and only if there are at most 1025 messages |
| `KryptaDelivery.LockStepPastTheWrap` | crates/krypta/src/ratchet.rs:131-153 | in lock step messages keep decrypting beyond 2^32, where the counter on the wire is the index modulo 2^32 |
| `KryptaX3dh.CreateBundleIsHonest` | crates/krypta/src/x3dh.rs:101-117 | a created bundle is signed by its owner and always carries a one-time pre-key |
| `KryptaX3dh.Agreement` | crates/krypta/src/x3dh.rs:134-272 | against an honest bundle, with or without a one-time pre-key, initiating fails only for want of entropy, and both sides derive the same three keys: all three or four agreements between the named secrets, expanded under the label of each purpose |
| `KryptaX3dh.AgreedKeysAreApart` | crates/krypta/src/x3dh.rs:258-272 | whenever either side succeeds, against whatever bundle or message, the shared secret and the two roots are pairwise distinct and no message key of one direction is one of the other |
| `KryptaX3dh.InitiatesExactly` | crates/krypta/src/x3dh.rs:134-190 | an initiator succeeds if and only if the pre-key is signed by the advertised identity, no public value is of low order, and there is entropy |
| `KryptaX3dh.RespondsExactly` | crates/krypta/src/x3dh.rs:202-238 | a responder succeeds if and only if no public value is of low order and both sides agree on there being a one-time key |
| `KryptaX3dh.UnsignedPrekeyIsRejected` | crates/krypta/src/x3dh.rs:138-145 | no agreement starts from a pre-key the advertised identity did not sign, and the error says whether key or signature is at fault |
| `KryptaX3dh.OneSidedOneTimeKeyFails` | crates/krypta/src/x3dh.rs:228-235 | a one-time pre-key on one side only is an error |
| `KryptaX3dh.KeysBindTheInitiator` | crates/krypta/src/x3dh.rs:202-272 | two accepted messages give the same keys if and only if the secrets behind identity, ephemeral key and one-time ephemeral key coincide |
| `KryptaX3dh.KeysBindTheResponder` | crates/krypta/src/x3dh.rs:202-272 | two bundles answer one message with the same keys if and only if their pre-key, identity and one-time secrets coincide |
| `KryptaX3dh.RespelledMessagesShareKeys` | crates/krypta/src/x3dh.rs:202-256 | another sign bit, or other parts that X25519 forgets, make another message and another identity with the same keys |
| `KryptaSession.Session.constructor` | crates/krypta/src/session.rs:83-127 | both roots become fresh ratchets and the peer starts unverified |
| `KryptaSession.Session.Initiate` | crates/krypta/src/session.rs:83-97 | succeeds or fails with the agreement; the peer is the identity of the bundle and the two separate roots are in sending order |
| `KryptaSession.Session.Respond` | crates/krypta/src/session.rs:110-127 | the peer is the identity of the message, and the roots are crossed |
| `KryptaSession.Session.EncryptMessage` | crates/krypta/src/session.rs:134-137 | only the send ratchet moves |
| `KryptaSession.Session.DecryptMessage` | crates/krypta/src/session.rs:145-155 | only the receive ratchet moves, and success promotes the peer to verified |
| `KryptaSession.AcceptedIsSent` | crates/krypta/src/session.rs:145-155 | under ideal AEAD an accepted message is the one the peer sealed at that counter |
| `KryptaSession.StepKeepsInv` | crates/krypta/src/session.rs:134-155 | every send and every receive of anything keeps the invariant of both directions and of both peer identities |
| `KryptaSession.SessionSafety` | crates/krypta/src/session.rs:83-155 | end to end, over every run of sends and of delivered, duplicated, dropped, reflected or invented messages: responding succeeds, each counter is accepted at most once, accepted texts are those sealed there, no two messages of either direction are sealed under one key, each side keeps naming the other as its peer and has verified it if and only if something from it was accepted, and both caches agree with recomputation |
| `KryptaSession.ReflectionIsRefused` | crates/krypta/src/session.rs:134-155 | in every reachable state a box handed back to the side that sealed it, under any counter, is refused and changes nothing |
| `KryptaSession.DeliverySucceedsExactly` | crates/krypta/src/session.rs:134-155 | in every reachable state and both directions a sent message decrypts if and only if its counter is servable, and then to the text sent |
| `StpCrc.ComputeCrcOver` | crates/kelyphos/src/stp.rs:187-199 | the two loops fold the octet step over header then payload |
| `StpCrc.CrcByteIsEightSteps` | crates/kelyphos/src/stp.rs:216-227 | the table-free octet step is eight steps of most-significant-bit-first division by 0x1021 |
| `StpCrc.CrcIsDivision` | crates/kelyphos/src/stp.rs:187-227 | for every octet sequence the CRC is bit-serial division from the initial word |
| `StpDetection.CodewordCarriesItsCrc` | crates/kelyphos/src/stp.rs:187-227 | a message followed by two octets divides evenly if and only if they are its CRC, high octet first |
| `StpDetection.StartsAsAllOnes` | crates/kelyphos/src/stp.rs:187-199 | two octets clear the initial register if and only if both are all ones |
| `StpDetection.UndetectedExactly` | crates/kelyphos/src/stp.rs:187-227 | a corrupted codeword passes if and only if the divisor divides the error |
| `StpDetection.BurstsDetected` | crates/kelyphos/src/stp.rs:187-227 | every burst of at most sixteen bits is detected at every length |
| `StpDetection.OddErrorsDetected` | crates/kelyphos/src/stp.rs:187-227 | every odd number of flipped bits is detected |
| `StpDetection.AdjacentOctetsDetected` | crates/kelyphos/src/stp.rs:187-227 | every change confined to two adjacent octets is detected |
| `StpPeriod.SquarePower` | crates/kelyphos/src/stp.rs:216-227 | squaring a power of x modulo the divisor doubles its exponent |
| `StpPeriod.PeriodExactly` | crates/kelyphos/src/stp.rs:216-227 | the powers of x modulo the divisor return to 1 exactly at the multiples of 32767 |
| `StpPeriod.TwoBitErrorsExactly` | crates/kelyphos/src/stp.rs:187-227 | two flipped bits of a codeword of any length go unnoticed if and only if they are a multiple of 32767 apart |
| `StpFrame.BuiltFramesAreWellFormed` | crates/kelyphos/src/stp.rs:104-127 | data and acknowledgement frames carry the length and CRC of their payload |
| `StpFrame.BuiltFramesSpell` | crates/kelyphos/src/stp.rs:104-175 | octet for octet: a data frame is type 0 without the flag and carries its payload cut at 4095 octets, an acknowledgement is type 2 with the flag and carries nothing, both carry the number modulo 8, the exclusive or of the header octets and a CRC that completes a codeword |
| `StpFrame.TypesOnTheWire` | crates/kelyphos/src/stp.rs:26-62 | the five frame types have the codes 0, 1, 2, 3 and 15 |
| `StpFrame.HeaderOctetsExactly` | crates/kelyphos/src/stp.rs:130-155 | two headers have the same octets if and only if they agree on type, acknowledgement flag, sequence number modulo 8 and length |
| `StpFrame.ChecksumIsEven` | crates/kelyphos/src/stp.rs:165-175 | the checksum makes the exclusive or of the four header octets zero |
| `StpFrame.Encode` | crates/kelyphos/src/stp.rs:130-155 | writes the encoding and nothing beyond it, or nothing if it does not fit |
| `StpFrame.LengthRoundTrip` | crates/kelyphos/src/stp.rs:130-155 | the twelve-bit length survives its split over two header octets |
| `StpFrame.CrcMatchesExactly` | crates/kelyphos/src/transport.rs:227-254 | the receiver's comparison holds if and only if what the CRC protects is a codeword |
| `StpFrame.EncodedIsIntact` | crates/kelyphos/src/stp.rs:104-155 | the encoding of a well-formed frame is framed as it declares and passes the comparison |
| `StpReceiver.RxParser.constructor` | crates/kelyphos/src/transport.rs:148-156 | a parser starts idle with nothing collected |
| `StpReceiver.RxParser.PushByte` | crates/kelyphos/src/transport.rs:162-256 | the whole new parser state and verdict for one octet, in every state; the buffer invariant is kept |
| `StpReceiver.RxParser.PushHeaderByte` | crates/kelyphos/src/transport.rs:174-204 | header octets are collected and the declared length read; the overflow bail-out is unreachable |
| `StpReceiver.RxParser.PushPayloadByte` | crates/kelyphos/src/transport.rs:206-225 | payload octets are collected; the overflow bail-out is unreachable |
| `StpReceiver.RxParser.PushCrcByte` | crates/kelyphos/src/transport.rs:227-254 | the second CRC octet surfaces the frame or counts one error |
| `StpReceiver.RxParser.CrcIsIntact` | crates/kelyphos/src/transport.rs:233-249 | recomputes the CRC over the raw frame without the checksum octet |
| `StpReceiver.RxParser.TakeRaw` | crates/kelyphos/src/transport.rs:261-263 | the raw frame is the filled part of the buffer |
| `StpReceiver.BufferNeverOverflows` | crates/kelyphos/src/transport.rs:162-256 | in every reachable state but the idle one there is room for the next octet |
| `StpReceiver.FramedVerdict` | crates/kelyphos/src/transport.rs:162-256 | any framed sequence is surfaced whole or counted as exactly one CRC error |
| `StpReceiver.StreamIsRecovered` | crates/kelyphos/src/transport.rs:162-256 | frames back to back with noise free of the start octet between them come out exactly, in order, with no CRC error and an idle parser, whatever their payloads |
| `StpReceiver.BuiltFramesArrive` | crates/kelyphos/src/transport.rs:162-256 | an idle parser surfaces the octets of a data frame with its payload and number, or of an acknowledgement with its number |
| `StpReceiver.SurfacedIsGenuine` | crates/kelyphos/src/transport.rs:162-256 | on arbitrary octets everything surfaced is a slice of the input, framed as it declares and passing the CRC |
| `StpReceiver.ResynchronisesWithinBudget` | crates/kelyphos/src/transport.rs:162-256 | from any state the parser is idle again within its budget, 4101 octets after a start octet |
| `StpCorruption.CorruptionVerdict` | crates/kelyphos/src/transport.rs:227-254 | a changed encoding whose start octet and declared length stand is surfaced or counted according to the codeword test |
| `StpCorruption.AdjacentCorruptionRejected` | crates/kelyphos/src/transport.rs:227-254 | a change of one or two adjacent protected octets, length octets included, is never surfaced; if the declared length stands it adds exactly one CRC error, at every frame length |
| `StpCorruption.PayloadCorruptionRejected` | crates/kelyphos/src/transport.rs:227-254 | a change of one payload octet or two adjacent ones is never surfaced and raises the CRC error count by exactly one |
| `StpCorruption.BitCorruptionRejected` | crates/kelyphos/src/transport.rs:227-254 | the same for any burst of at most sixteen protected bits and any odd number of them |
| `StpCorruption.TwoBitsSlipThroughExactly` | crates/kelyphos/src/transport.rs:227-254 | two flipped protected bits that keep the declared length are surfaced if and only if they are 32767 apart, and otherwise counted once |
| `StpCorruption.OneOctetSlipsThroughExactly` | crates/kelyphos/src/transport.rs:162-256 | an encoding with any single octet changed is surfaced if and only if that octet is the header checksum; any other that keeps the declared length is counted as one CRC error |
| `StpCorruption.DeclaredLengthVerdict` | crates/kelyphos/src/transport.rs:162-256 | whatever length is declared: that frame is surfaced or counted by its own CRC and the rest parsed afresh, or more octets are awaited |
| `StpCorruption.LostStart` | crates/kelyphos/src/transport.rs:163-172 | an encoding without its start octet is parsed from its second octet on |
| `StpCorruption.ShortenedFrameSlips` | crates/kelyphos/src/transport.rs:162-256 | a concrete frame, for every sequence number, of which one changed length octet makes a frame nobody sent surface without a CRC error |
| `StpCorruption.LongFrameSlips` | crates/kelyphos/src/transport.rs:227-254 | every frame of at least 4091 payload octets has two bits whose flipping is surfaced |
| `StpTransport.Transport.constructor` | crates/kelyphos/src/transport.rs:323-333 | an empty window, sequence number 0 and an idle parser |
| `StpTransport.Transport.Enqueue` | crates/kelyphos/src/transport.rs:357-366 | the encoding goes into the first free slot and the sequence number advances, or the window is full and unchanged |
| `StpTransport.Transport.Acknowledge` | crates/kelyphos/src/transport.rs:377-387 | the first slot with that number is freed, or the acknowledgement is stale |
| `StpTransport.Transport.Retransmit` | crates/kelyphos/src/transport.rs:400-431 | the stored octets and one more retry, or the slot is freed at the limit |
| `StpTransport.Transport.ReceiveByte` | crates/kelyphos/src/transport.rs:437-443 | the step of a receive run, with the raw frame exactly when one is surfaced; the window is untouched |
| `StpWindow.StepKeepsInv` | crates/kelyphos/src/transport.rs:357-431 | every call keeps slots, history and accounting consistent, in any order of acknowledgements |
| `StpWindow.FramesAreConserved` | crates/kelyphos/src/transport.rs:357-452 | over every run enqueued equals acknowledged plus exhausted plus in flight, at most 7 are in flight and no frame is retried beyond the limit |
| `StpWindow.RetransmitReturnsTheOriginal` | crates/kelyphos/src/transport.rs:400-431 | over every run a retransmission returns the octets enqueued for the frame in that slot |
| `StpWindow.RetryEndsExactly` | crates/kelyphos/src/transport.rs:400-431 | over every run a retransmission is stale if and only if no frame in flight has the number, and reports the limit if and only if the frame it finds has been handed back that often, which then leaves |
| `StpWindow.DistinctKeptExactly` | crates/kelyphos/src/transport.rs:357-431 | a step keeps in-flight numbers distinct if and only if it does not enqueue while the next number is still in flight |
| `StpWindow.OldestFirstRuns` | crates/kelyphos/src/transport.rs:357-452 | over every run in which frames leave oldest first, in flight is the youngest stretch of the history and its numbers are distinct |
| `StpWindow.AckFreesExactlyItsFrame` | crates/kelyphos/src/transport.rs:377-387 | in such runs an acknowledgement frees the frame it names and no other |
| `StpWindow.OutOfOrderAcksCollide` | crates/kelyphos/src/transport.rs:357-387 | a concrete run, with acknowledgements out of order, after which two frames in flight share a number |
| `Gsm7.ExtensionCode` | crates/klesis-core/src/gsm7.rs:79-99 | the extension lookup returns a listed code or none is listed |
| `Gsm7.BaseCode` | crates/klesis-core/src/gsm7.rs:79-99 | the base lookup returns a septet other than the escape that stands for the character, or none does |
| `Gsm7.CountSeptets` | crates/klesis-core/src/gsm7.rs:112-121 | counts the septets of the text, or reports its first unencodable character |
| `Gsm7.ToSeptets` | crates/klesis-core/src/gsm7.rs:134-144 | the first encoder loop produces the septets of the text |
| `Gsm7.Pack` | crates/klesis-core/src/gsm7.rs:146-167 | the second encoder loop lays the septets end to end, bit for bit |
| `Gsm7.OrSeptet` | crates/klesis-core/src/gsm7.rs:152-166 | one septet sets exactly its own seven bits, across an octet boundary or not |
| `Gsm7.Encode` | crates/klesis-core/src/gsm7.rs:134-168 | accepts exactly the encodable texts and packs them |
| `Gsm7.PackedSeptet` | crates/klesis-core/src/gsm7.rs:134-168 | septet i of the packed octets is septet i of the text |
| `Gsm7Value.PackingChangesBase` | crates/klesis-core/src/gsm7.rs:146-167 | the packed octets write in base 256 the number the septets write in base 128, in the fewest octets that have room for it |
| `Gsm7.ReadSeptet` | crates/klesis-core/src/gsm7.rs:218-268 | the two-octet extraction reads bits 7i to 7i + 6 of the stream, zero beyond its end |
| `Gsm7.DecodeFrom` | crates/klesis-core/src/gsm7.rs:218-268 | the decoder loop from any start septet, with truncation and dangling-escape errors |
| `Gsm7.DecodesExactly` | crates/klesis-core/src/gsm7.rs:218-268 | septets decode if and only if all are there and they do not end in an odd number of escapes; otherwise the error names the first missing septet or the dangling escape |
| `Gsm7.CarriedTextDecodes` | crates/klesis-core/src/gsm7.rs:218-268 | wherever the septets of a text lie in a stream, decoding there returns the text |
| `Gsm7.RoundTrip` | crates/klesis-core/src/gsm7.rs:134-268 | every encodable text comes back from its packed octets, of which there are ceil(7n/8) |
| `Gsm7Tables.GsmIsValid` | crates/klesis-core/src/gsm7.rs:22-63 | the shipped tables meet what the theorems ask of an alphabet |
| `SmsUdh.UdhSeptetsIsLeastBoundary` | crates/klesis-core/src/udh.rs:156-158 | the fill-bit offset is the least septet boundary at or after the header |
| `SmsUdh.ParseUdhPorts` | crates/klesis-core/src/udh.rs:108-138 | returns the first four-octet port element of the declared header, on any octets |
| `SmsUdh.ScanFindsFirst` | crates/klesis-core/src/udh.rs:108-138 | scanning by position finds the first such element of the element list |
| `SmsUdh.ElementsRoundTrip` | crates/klesis-core/src/udh.rs:108-138 | the element list of a laid-out header is the list it was laid out from |
| `SmsUdh.PortsOfLaidOutHeader` | crates/klesis-core/src/udh.rs:108-138 | a laid-out header yields the ports of its first port element |
| `SmsUdh.PortsIgnoreTheBody` | crates/klesis-core/src/udh.rs:108-138 | octets behind the declared header have no influence |
| `SmsAddress.DecodeBcdAddress` | crates/klesis-core/src/bcd_address.rs:35-58 | digits from nibbles with the international prefix, or the first fault |
| `SmsAddress.PackBcdDigits` | crates/klesis-core/src/bcd_address.rs:86-107 | accepts exactly at most 20 decimal digits and packs two an octet with an odd one filled up; reports the first character that is no digit, and otherwise the length |
| `SmsAddress.PackedNibbles` | crates/klesis-core/src/bcd_address.rs:86-107 | octet j holds digit 2j in its lower half and digit 2j + 1, or the filler, in its upper half |
| `SmsAddress.AddressRoundTrip` | crates/klesis-core/src/bcd_address.rs:35-107 | every packed address decodes to its digits |
| `SmsAddress.HexDecode` | crates/klesis/src/pdu.rs:181-209 | decodes exactly the strings that spell octets in hex |
| `SmsAddress.HexNibbleExactly` | crates/klesis/src/pdu.rs:211-218 | exactly the sixteen digits in either case have a value, and it is their position |
| `SmsAddress.SpellingIsUnique` | crates/klesis/src/pdu.rs:181-218 | a hex string spells at most one octet sequence |
| `SmsPdu.Cursor.ReadByte` | crates/klesis/src/pdu.rs:245-255 | one octet and an advance, or an error at the offset and no move |
| `SmsPdu.Cursor.ReadSlice` | crates/klesis/src/pdu.rs:257-271 | n octets and an advance, or an error at the offset and no move |
| `SmsPdu.DecodeDeliver` | crates/klesis/src/pdu.rs:308-419 | decodes the octets a hex string spells; anything too long or not hex is an error |
| `SmsPdu.DecodeRaw` | crates/klesis/src/pdu.rs:308-419 | header, then user data, with the error of the first field that fails |
| `SmsPdu.DecodeHeader` | crates/klesis/src/pdu.rs:317-333 | service centre, first octet and message type |
| `SmsPdu.DecodeAddress` | crates/klesis/src/pdu.rs:335-340 | originating address with its digit count |
| `SmsPdu.DecodeTail` | crates/klesis/src/pdu.rs:342-359 | silent protocol identifiers rejected, data coding, timestamp octets and user data length; which identifiers those are is stated by `SilentIsRefusedExactly` |
| `SmsPdu.DecodeBody` | crates/klesis/src/pdu.rs:359-412 | WAP-push ports rejected, the header skipped by septets or octets |
| `SmsPdu.DecodeUserData` | crates/klesis/src/pdu.rs:490-540 | GSM-7 from the header's septet boundary, or UCS-2 code units |
| `SmsPdu.DecodeUtf16` | crates/klesis/src/pdu.rs:515-536 | big-endian code units, surrogates refused |
| `SmsRoundTrip.Gsm7DeliverRoundTrip` | crates/klesis/src/pdu.rs:308-419 | every PDU laid out as section 9.2.3.24 of 3GPP TS 23.040 says, with an identifier outside 0x40 to 0x47, any header that addresses neither port 2948 nor 49999, any fill bits, any sender of at most 20 digits and anything behind it, decodes to exactly its sender and text |
| `SmsRoundTrip.LaidOutPduFits` | crates/klesis/src/pdu.rs:308-316 | such a PDU never exceeds the limit on the hex string |
| `SmsRoundTrip.LayoutExists` | crates/klesis/src/pdu.rs:359-412 | such a layout exists for every header and encodable text |
| `SmsRoundTrip.Ucs2DeliverRoundTrip` | crates/klesis/src/pdu.rs:308-419 | the same for UCS-2 and texts of the Basic Multilingual Plane |
| `SmsRoundTrip.DeliveredIsNormal` | crates/klesis/src/pdu.rs:333-412 | every PDU that decodes is classified Normal on its own first octet, protocol identifier and user data, all of which is present, and its identifier is outside 0x40 to 0x47 |
| `SmsRefusal.SilentIsRefusedExactly` | crates/klesis/src/pdu.rs:342-346 | a laid-out PDU raises the silent-message alert, naming its identifier, if and only if that is one of 0x40 to 0x47, whatever else it holds |
| `SmsRefusal.PushIsRejectedExactly` | crates/klesis/src/pdu.rs:359-384 | a PDU whose field begins with a laid-out header is rejected as a push if and only if bit 6 of its first octet is set and the first port element has the destination octets 0B 84 or C3 4F, and the rejection names those ports |
| `SmsRefusal.RefusedAsClassified` | crates/klesis-core/src/udh.rs:170-184 | the classifier and the decoder agree: silent and push messages are refused as what they are classified, and Normal ones are refused as neither |
| `SmsRefusal.OtherTypesAreRefused` | crates/klesis/src/pdu.rs:321-332 | any other message type is an error at the first octet |
| `SmsRefusal.OtherCodingsAreRefused` | crates/klesis/src/pdu.rs:466-488 | compressed, eight-bit and reserved data codings are an error at the coding octet |
| `SmsRefusal.Ucs2IsRefusedExactly` | crates/klesis/src/pdu.rs:508-540 | UCS-2 text decodes if and only if it is whole code units without surrogates, and the error names the end of the field |
| `SmsRefusal.OverlongHeaderShowsNothing` | crates/klesis/src/pdu.rs:384-412 | a header that claims more octets than the field holds takes all of it, and the text is empty |
| `SmsEncode.CountGsm7Septets` | crates/klesis/src/pdu.rs:583-608 | the separate counter agrees with the codec's counter on every text, errors included |
| `SmsEncode.EncodeUserData` | crates/klesis/src/pdu.rs:542-578 | encodes exactly the texts that fit, in a field the decoder reads back as that text |
| `Eapol.EncodeKeyFrame` | crates/aither-core/src/eapol.rs:371-390 | appends the fields in order with the key data capped at 65535 octets |
| `Eapol.Encode` | crates/aither-core/src/eapol.rs:344-368 | header and body, the body capped at 65535 octets |
| `Eapol.FixedLayout` | crates/aither-core/src/eapol.rs:279-390 | every field is written where the parser reads it |
| `Eapol.HeaderOctets` | crates/aither-core/src/eapol.rs:344-368 | version, type code 0 to 3 and the big-endian length of the body, octet for octet |
| `Eapol.FaultsAreNamed` | crates/aither-core/src/eapol.rs:234-340 | octets parse unless a named fault, told from the octets in the order they are read, is there |
| `Eapol.ParseOfEncode` | crates/aither-core/src/eapol.rs:234-390 | parsing undoes encoding if and only if the frame is well formed (at most 65440 octets of key data, RSN descriptor, key frame exactly in key packets); oversized key frames come back as errors |
| `Eapol.ParseIsWellFormed` | crates/aither-core/src/eapol.rs:234-340 | every parsed frame is well formed |
| `Eapol.Reparse` | crates/aither-core/src/eapol.rs:234-390 | parse, encode, parse is parse, for every input that parses |
| `Eapol.EncodeOfParse` | crates/aither-core/src/eapol.rs:234-390 | encoding undoes parsing if and only if the reserved octets are zero and nothing follows the declared lengths |
| `Eapol.SlackIsNotCanonical` | crates/aither-core/src/eapol.rs:234-390 | octets behind canonical ones parse alike, are not canonical, and are lost by encoding |
| `Eapol.EncodedWithMic` | crates/aither-core/src/eapol.rs:371-390 | changing the integrity code changes its sixteen octets and no others |
| `Eapol.MicCoversTheWire` | crates/aither-core/src/wpa.rs:473-485 | re-encoding with the code zeroed equals zeroing it on the wire if and only if the octets were canonical and the recorded version is theirs |
| `WpaKeys.Prf` | crates/aither-core/src/wpa.rs:142-166 | fills the output with the tags for counters 0, 1, 2, ... end to end, the counter being one octet |
| `WpaKeys.Prf384` | crates/aither-core/src/wpa.rs:125-134 | the first 48 octets of the three tags of section 12.7.1.2 of IEEE 802.11-2020 |
| `WpaKeys.DerivePtk` | crates/aither-core/src/wpa.rs:176-211 | confirmation, encryption and temporal key from the master key and the ordered addresses and nonces |
| `WpaKeys.PtkInFull` | crates/aither-core/src/wpa.rs:176-211 | the three parts end to end are the first 48 octets of three codes keyed with the master key over the text "Pairwise key expansion", a zero octet, both addresses and both nonces with the numerically lesser first, and the octets 0, 1 and 2 |
| `WpaKeys.PtkDependsExactly` | crates/aither-core/src/wpa.rs:176-211 | two sets of inputs give the same key under every code function if and only if master key, unordered addresses and unordered nonces coincide |
| `WpaKeys.PartsDiffer` | crates/aither-core/src/wpa.rs:176-211 | some code function keeps the three parts pairwise different |
| `WpaKeys.LexLeIsNumeric` | crates/aither-core/src/wpa.rs:185-202 | the order of equally long strings is that of the numbers they write |
| `WpaKeys.OrderedExactly` | crates/aither-core/src/wpa.rs:187-202 | ordering forgets which of two equally long strings came first and nothing else |
| `WpaKeys.PtkDataExactly` | crates/aither-core/src/wpa.rs:185-202 | two handshakes hash the same input if and only if their unordered address pairs and unordered nonce pairs coincide |
| `WpaKeys.PtkAgreement` | crates/aither-core/src/wpa.rs:176-211 | both sides derive the same key with their arguments exchanged |
| `WpaKeys.ConstantTimeEq` | crates/aither-core/src/wpa.rs:247-256 | accumulating all differences decides equality |
| `WpaKeys.VerifyMic` | crates/aither-core/src/wpa.rs:219-239 | accepts exactly the first sixteen octets of the HMAC |
| `WpaHandshake.Handshake.constructor` | crates/aither-core/src/wpa.rs:365-374 | awaits Message 1 with version 2 and no key |
| `WpaHandshake.Handshake.SetEapolVersion` | crates/aither-core/src/wpa.rs:401-403 | changes the recorded version only |
| `WpaHandshake.Handshake.ProcessMessage` | crates/aither-core/src/wpa.rs:419-492 | the whole new context for Message 1, Message 3 and every rejected or ignored frame |
| `WpaHandshake.Handshake.Msg2Sent` | crates/aither-core/src/wpa.rs:509-513 | moves on from sending Message 2 and otherwise nothing |
| `WpaHandshake.Handshake.MarkComplete` | crates/aither-core/src/wpa.rs:495-499 | completes after Message 4 and otherwise nothing |
| `WpaHandshake.Handshake.BuildResponse` | crates/aither-core/src/wpa.rs:519-586 | Message 2 or Message 4 with its integrity code, or nothing to send |
| `WpaHandshake.RunIsExplained` | crates/aither-core/src/wpa.rs:419-513 | after any call sequence the state, key, nonces, counter and version are those of the calls that account for it |
| `WpaHandshake.StateExactly` | crates/aither-core/src/wpa.rs:419-513 | after any call sequence the state is s if and only if the calls have the shape of s: Message 4 is due or sent exactly when the first message was a Message 1, Message 2 was then reported sent, and the next message was a Message 3 with a larger counter and a code valid under that key |
| `WpaHandshake.MessagesOnTheWire` | crates/aither-core/src/wpa.rs:419-460 | whether a received frame can be Message 1 or Message 3 is told by four bits of its two octets of key information |
| `WpaHandshake.Settled` | crates/aither-core/src/wpa.rs:419-513 | after Message 1 the key and nonces never change and the counter never falls; failed and completed handshakes are absorbing |
| `WpaHandshake.KeysNeverChange` | crates/aither-core/src/wpa.rs:419-513 | the same over whole runs from the start |
| `WpaHandshake.ResponseVerifies` | crates/aither-core/src/wpa.rs:519-586 | every response survives the wire, its code verifies over the sent octets with that field zeroed |
| `WpaHandshake.ResponseFlags` | crates/aither-core/src/wpa.rs:519-586 | no response can be taken for Message 1 or Message 3, and exactly Message 4 is marked secure |
| `WpaHandshake.ResponseOnTheWire` | crates/aither-core/src/wpa.rs:519-586 | every octet of a response: 95 octets of body without key data, key information 010A or 030A, the counter, the nonce in Message 2 only, zeros and the code |
| `WpaHandshake.ResponseDueExactly` | crates/aither-core/src/wpa.rs:519-586 | in reachable states a response exists if and only if one is due, and it answers the right message with the right nonce, counter and key |
| `WpaHandshake.Msg3OverTheWire` | crates/aither-core/src/wpa.rs:448-489 | over canonical octets Message 3 is taken if and only if flags, counter and the code over the received octets are right |
| `WpaHandshake.HonestRun` | crates/aither-core/src/wpa.rs:419-499 | against an honest authenticator every run with an honest Message 3 gets to Message 4 with both sides holding the same key |
| `WpaHandshake.SupplicantSession.constructor` | crates/aither-core/src/wpa.rs:272-276 | no counter seen yet |
| `WpaHandshake.SupplicantSession.Accept` | crates/aither-core/src/wpa.rs:286-294 | accepts and records a counter above the last accepted one, else changes nothing |
| `WpaHandshake.AcceptsExactly` | crates/aither-core/src/wpa.rs:286-294 | a counter is accepted if and only if it exceeds every counter ever shown before it |
| `DnsName.ExtractQueryDomain` | crates/asphaleia-core/src/lib.rs:339-391 | the lower-case dotted form of the first question's labels, or none if it cannot be decoded |
| `DnsName.ReadName` | crates/asphaleia-core/src/lib.rs:354-384 | the label loop decodes exactly the labels up to the root label |
| `DnsName.LabelsExactly` | crates/asphaleia-core/src/lib.rs:354-384 | the labels read are ls if and only if the octets begin with the wire form of ls (section 4.1.2 of RFC 1035) and there are at most 128 |
| `DnsBlocklist.MatchesExactly` | crates/asphaleia-core/src/lib.rs:435-442 | for every text, matching a pattern is the pattern's dot-separated pieces being the last pieces of the text |
| `DnsBlocklist.SplitJoin` | crates/asphaleia-core/src/lib.rs:435-442 | splitting the dotted form at its dots returns the labels |
| `DnsBlocklist.Blocklist.Add` | crates/asphaleia/src/dns.rs:60-63 | appends the entry without a leading "*." in lower case |
| `DnsBlocklist.Blocklist.IsBlocked` | crates/asphaleia/src/dns.rs:69-72 | compares in lower case against every pattern |
| `DnsBlocklist.IsBlockedLowercased` | crates/asphaleia/src/dns.rs:77-81 | true if and only if some pattern matches |
| `DnsBlocklist.BlocksDnsPayload` | crates/asphaleia/src/dns.rs:92-99 | blocks matching names and everything undecodable |
| `DnsBlocklist.BlockedExactly` | crates/asphaleia/src/dns.rs:60-81 | every name is blocked if and only if some entry, whatever the case of either, names its pieces or a parent of them; the pieces are the labels when those hold no dots |
| `DnsBlocklist.CoveredIsBlocked` | crates/asphaleia/src/dns.rs:60-81 | for every non-empty list of labels, dots inside them included, an entry that covers the labels blocks the name |
| `DnsBlocklist.EntryIsEffectiveExactly` | crates/asphaleia-core/src/lib.rs:435-456 | an entry covers some name of non-empty dot-free labels if and only if none of its pieces is empty |
| `DnsBlocklist.TrailingDotBlocksNothing` | crates/asphaleia-core/src/lib.rs:435-456 | an entry with a trailing dot covers no such name |
| `DnsBlocklist.QueryBlockedExactly` | crates/asphaleia/src/dns.rs:92-99 | the same for a query on the wire, which is also blocked whenever an entry covers its labels |
| `DnsBlocklist.AskedExactly` | crates/asphaleia/src/dns.rs:92-99 | a query can be read if and only if it asks for 1 to 128 labels on the wire, and one that cannot is blocked by every list |
| `DnsBlocklist.CaseDoesNotMatter` | crates/asphaleia/src/dns.rs:60-81 | exchanging letters for those of the other case, in entries or in the name, changes no verdict |
| `DnsBlocklist.StarIsOptionalExactly` | crates/asphaleia/src/dns.rs:60-63 | "*." before an entry changes its pattern if and only if the entry already begins with it |
| `Text.LowerExactly` | crates/asphaleia/src/dns.rs:60-72 | two strings agree in lower case if and only if they differ at most in the case of ASCII letters |
| `Text.CheckUtf8` | crates/asphaleia-core/src/lib.rs:376-376 | decides whether octets divide into well-formed characters |
| `Text.CharacterExactly` | crates/asphaleia-core/src/lib.rs:376-376 | a well-formed character is the octets of one Unicode scalar value, and the other way round |
| `PacketFilter.SubnetExactly` | crates/asphaleia/src/rules.rs:145-188 | a subnet matches exactly the addresses that agree on its prefix; host and any are its extremes |
| `PacketFilter.EvaluateRules` | crates/asphaleia/src/rules.rs:224-232 | the action of the first matching rule, else deny |
| `PacketFilter.FirstMatch` | crates/asphaleia/src/rules.rs:224-268 | no rule before it matches, and it does |
| `PacketFilter.Ipv4RoundTrip` | crates/asphaleia-core/src/lib.rs:119-172 | every laid-out header, with options, in front of anything parses to its own length, protocol and addresses |
| `PacketFilter.ParsedIsLaidOut` | crates/asphaleia-core/src/lib.rs:119-172 | whatever parses is such a header in front of its payload |
| `PacketFilter.Ipv4Faults` | crates/asphaleia-core/src/lib.rs:119-172 | what does not parse is refused for its length, version or header length, with the offending value |
| `PacketFilter.Filter.SetBlocklist` | crates/asphaleia/src/filter.rs:48-50 | attaches the patterns and nothing else |
| `PacketFilter.Filter.AddRule` | crates/asphaleia/src/rules.rs:211-213 | appends the rule |
| `PacketFilter.Filter.Evaluate` | crates/asphaleia/src/filter.rs:62-66 | the classification, counted once; rules and blocklist untouched |
| `PacketFilter.Filter.Classify` | crates/asphaleia/src/filter.rs:70-126 | parse failures and unknown protocols denied, name queries checked first, then the rules |
| `PacketFilter.Filter.Record` | crates/asphaleia/src/filter.rs:128-137 | one allowed or denied, and one logged if the action logs |
| `PacketFilter.AppendedRule` | crates/asphaleia/src/rules.rs:211-232 | a rule appended to the list decides exactly the packets no earlier rule matches |
| `PacketFilter.FailsClosed` | crates/asphaleia/src/filter.rs:70-126 | a packet passes only if it parses as TCP, UDP or ICMP and the first rule matching it allows it; a blocklist only ever turns verdicts into denials |
| `PacketFilter.QueryVerdict` | crates/asphaleia/src/filter.rs:70-126 | a UDP query to port 53 for any name is denied if and only if an entry covers its pieces, in particular whenever one covers its labels, and otherwise gets the verdict of the rules |
| `PacketRules.MatchesExactly` | crates/asphaleia/src/rules.rs:237-272 | a rule matches a packet if and only if its direction is the packet's and its selectors hold of octet 9, octets 12 to 15, octets 16 to 19 and the first and second two octets of the payload |
| `PacketRules.SubnetSelects` | crates/asphaleia/src/rules.rs:145-188 | a subnet selects the octets that agree with it on its prefix bits |
| `PacketRules.SelectorsAreIndependent` | crates/asphaleia/src/rules.rs:237-272 | a rule selects a packet if and only if each rule that keeps one of its selectors and leaves the others open does; the fully open rule selects exactly its direction |
| `PacketRules.VerdictOnOctets` | crates/asphaleia/src/filter.rs:70-126 | the whole verdict, for every packet: unreadable ones and stopped queries are denied, and every other gets the action of the first rule that selects its octets, or is denied |
| `PacketRules.UnreadableQueryIsStopped` | crates/asphaleia/src/filter.rs:90-104 | a packet to the name port whose query asks for no labels is stopped by every blocklist |
| `PacketFilter.AsciiNames` | crates/asphaleia-core/src/lib.rs:339-391 | names of ASCII labels are among those the query theorems cover if and only if each label has 1 to 191 octets |
| `PacketFilter.PacketsAreCounted` | crates/asphaleia/src/filter.rs:62-137 | over every run allowed plus denied is the number of packets and each counter counts its actions |
| `AtSession.ParseDecimalU32` | crates/klesis-core/src/at_response.rs:297-309 | returns the decimal value exactly when it is written in digits and fits 32 bits |
| `AtSession.ParseFinalResult` | crates/klesis-core/src/at_response.rs:91-105 | complete-line OK and ERROR, the two coded errors, and plain failure for an unclean code |
| `AtSession.FinalLinesExactly` | crates/klesis-core/src/at_response.rs:91-105 | a line ends a command if and only if it is OK or ERROR or begins with one of the two error texts, and OK alone means success |
| `AtSession.CodesComeBack` | crates/klesis-core/src/at_response.rs:91-105 | every code written in decimal is reported as that number under its own kind if it fits 32 bits, and as a plain failure otherwise |
| `AtSession.Session.ReadLine` | crates/klesis/src/transport.rs:212-260 | the result and the whole new buffer and stream, timeouts and channel failures included; the buffer holds no line feed and fewer than 256 octets between calls; every result but "not ready" uses up input |
| `AtSession.Session.TakeLine` | crates/klesis/src/transport.rs:215-230 | drains through the line feed, drops one carriage return, and checks UTF-8 |
| `AtSession.Session.Collect` | crates/klesis/src/transport.rs:124-142 | the response loop over successive reads |
| `AtSession.Session.SendCommand` | crates/klesis/src/transport.rs:120-143 | a command the channel refuses reads nothing; otherwise it terminates on every finite stream and ends as the reads it made decide |
| `AtStream.OneRead` | crates/klesis/src/transport.rs:212-260 | every read takes exactly the next line off the stream, or nothing when it is not there yet or the channel fails; a timeout loses one unfinished line and nothing else |
| `AtStream.ReadExactly` | crates/klesis/src/transport.rs:212-260 | one read in full: the line completed by the octets before the first obstacle, or else the error of that obstacle, with the fragment kept unless time ran out |
| `AtStream.NothingIsLost` | crates/klesis/src/transport.rs:212-260 | after any number of reads in time, the lines handed out and those of the rest make up those of the stream |
| `AtStream.ReadsAreTheSegments` | crates/klesis/src/transport.rs:212-260 | reading in time until the input is used up returns exactly the lines of the octets, wherever empty or failing reads fell |
| `AtStream.LinesAreReadExactly` | crates/klesis/src/transport.rs:212-260 | a stream of lines is read as those lines if and only if each fits 256 octets with its line feed |
| `AtStream.SentLinesComeBack` | crates/klesis/src/transport.rs:215-230 | UTF-8 lines ended by a line feed, with or without a carriage return, come back as the lines themselves |
| `AtStream.CommandReadsTheStream` | crates/klesis/src/transport.rs:120-143 | a successful command returns the first final result of the stream and the fewer than 16 non-blank lines before it, in order |
| `AtStream.CommandAnswersExactly` | crates/klesis/src/transport.rs:120-143 | when only octets are to come, a command answers r after n reads if and only if line n of the stream is its first final result and r is made of it and the fewer than 16 non-blank lines before it |
| `AtStream.ConcludesOnce` | crates/klesis/src/transport.rs:120-143 | a command ends after one number of reads and with one answer |

## Left out

- Concrete cryptography and random generation: AES-GCM, HMAC, HKDF, PBKDF2, Ed25519 and X25519 are symbolic or uninterpreted, and their library errors on key lengths do not occur.
- Zeroization, drop order and timing: a functional model does not express memory residue or constant-time execution.
- Clocks and devices: when a read runs out of time or a channel fails is a parameter.
- `wait_urc` and the nom-based URC parsers: library combinators around the line reader.
- Timestamps: the seven octets are kept as they are and not formatted.
- `encode_submit` framing around the user data: straight-line concatenation of modelled parts.
- `with_surveillance_defaults`: a fixed list of twelve entries added one by one.
- `derive_pmk`: one call to PBKDF2.
- Overflow of 32- and 64-bit statistic counters: they are unbounded here.
- The unused tail of fixed frame buffers: a payload array is its filled prefix.
- kelyphos `wmt.rs`, haphe, cldma, ccci, `mac.rs`, eidolon, build scripts, fuzz targets and benches: register sequencing, small-state buffers, fixed layouts, user interface and plumbing.
