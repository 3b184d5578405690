# csp-intercept: a verified model of its core

csp-intercept drops a reproducible part of a CSP file upload, watches what crosses the bus, and
ships an uploader that refuses to call a corrupt file delivered. This project models the parts of
it whose correctness finite tests cannot settle, and proves what they are for. `dafny verify
dfyconfig.toml` checks the whole of it.

**Self-Verifying Uploader.** `SvuSpec` says what a receiver holds, what a fragment does to it and
what the verdict is; `SvuReceiver` is the receiver with its buffers updated in place. `SvuWire`,
`SvuServer` and `SvuClient` are the two ends of the wire, loops included. The data channel is an
input of the client loop: any packets may arrive in any round. The control channel may lose any
part of what the sender wrote, in order. The loop is closed: the client's contract says which bytes
each request is made of, `Answer` is what the sender puts on both channels for those bytes, and
`Upload` is about a channel that delivers that answer. Safety and convergence are proved for an
arbitrary hash function: safety reads "the file is the source, or one of its blocks differs from the
source's and has the same digest", and never assumes that collisions do not exist. `SvuConvergence`
bounds the rounds of each run by what arrives in it, `SvuWorstCase` bounds the rounds of every good
run by what the receiver holds at its start, and `SvuUpload` puts client, sender and channel together.
`SvuLayout` says in plain numbers what each packet looks like and how long it is.

**SHA-256.** The streaming context compresses each full buffer through the schedule and round loops,
and is proved to compute FIPS 180-4 hashing of the padded message for any split of the input, for
arbitrary word primitives; `Sha256Spec` fixes them to those of the standard. What those are is said
a second time: the word functions bit by bit (`Sha256Laws`), the constants as roots of primes
(`Sha256Constants`), and the whole as the published digest of "abc" (`Sha256Vector`).

**Measurement.** The 16-bit sequence unwrapper over a circular bitmap refines a set of positions;
the RTT ring refines an unbounded history.

**Injectors.** splitmix64 is inverted, so the drops of a rule can be counted exactly over the 2^64
indices; the burst chain, the in-path shim, the lossy proxy and the monitor are compared over whole
runs; the split-horizon bridge is a system of frames in flight between two reflecting media.

Modelling choices. Payload bytes are `bv8`, and the bytes of CSP frames, which are only decoded, are
numbers; machine integers are ranges of `int` with every wrap-around written out. Probabilities are
reals. A function that the code fixes (the hash of a block, the compression of a block, the draws of
a seed) is a function-valued parameter wherever the proof does not depend on which one it is;
`Sha256`, `FIPS`, `DrawsOf` and `SeededDraws` are the values the code uses. What the library calls
deliver (packets, duplicates, timeouts, rand()) is a parameter.

Five statements that one might expect are false of the code. Each is given with an input on which it
fails and with exactly when it holds:

- A good stretch of ceil(m/32) + ceil(nblocks/32) rounds need not be enough, for two reasons. Late
  genuine fragments can cut holes that were not asked for into single bytes (`PlainBoundFails`: 33
  holes and one block need four rounds). And where a wrong block happens to have the right digest, a
  late fragment can make it fail after all (`PlainBoundFailsOnCollision`: no hole, two blocks, two
  rounds). A good round here is one whose requested fragments all arrive and in which nothing altered
  arrives. For any hash function, `Enough` rounds suffice for every good run from a receiver, and fewer
  than `Needed` do not (`WorstCaseIsExact`); both are functions of what the receiver holds. They differ
  by the number of wrong blocks of which some mixture with the source has the right digest. Without
  such a block they are equal, and `n` rounds suffice if and only if `n` is at least that number; with
  at most 32 holes that number meets the plain bound (`FewHolesMeetPlainBound`). `Needed` is attained
  by a channel that may deliver any fragment of the source; with one payload byte a packet these are
  fragments of the sender's first blast, with larger packets the late fragments the sender really sent
  may cut less.
- The flow index is not the true position once a stream steps backward over a multiple of 65536
  (`BackwardStepShifts`): it is off by one epoch for every such step, and exact if and only if there
  was none (`IndexLaw`).
- Losing part of the control stream need not make the exchange fail: if the header is lost and a
  manifest chunk reads as an answer, the client takes it for one (`LostHeaderMisleads`; `MagicDigest` is such a chunk). No loss can
  mislead it if and only if the manifest is `Unmistakable`, which the sender can check
  (`UnmistakableIsExact`). The client's theorems ask only that no attempt of the first round misreads
  a chunk; answers of later rounds are not used.
- The drop log and the monitor can name the same index (`BothNamed`): they are disjoint over all runs
  if and only if the rule's scope takes in DTP data or the rule drops no fragment index at all
  (`OraclesDisjoint`).
- Proxy and shim agree over all runs if and only if the rule names a port (`InterchangeableIffPort`):
  without one the proxy tosses a coin and logs nothing.

## Model

| member | source | states |
|---|---|---|
| SvuSpec.NBlocksIsExactOrZero | lib/ci_svu.c:28-34 | the 32-bit wrapping block count is the exact ceiling or 0, and 0 exactly when a size is 0 or the sum wraps |
| SvuSpec.ManifestDigest | lib/ci_svu.c:51-66 | digest b of the manifest is the hash of block b of the source |
| SvuProperties.MissingFromIsExact | lib/ci_svu.c:160-176 | the missing ranges are sorted, separated, non-empty, and their union is exactly the uncovered bytes |
| SvuProperties.MissingRunsAreMaximal | lib/ci_svu.c:160-176 | both neighbours of a reported range are covered or outside the payload |
| SvuProperties.FailingBlocksAreExact | lib/ci_svu.c:177-194 | the failing blocks are listed exactly, each once and in order |
| SvuProperties.IncompleteNamesARange | lib/ci_svu.c:158-199 | INCOMPLETE exactly when a byte is uncovered; not verified implies at least one range, verified implies none |
| SvuProperties.VerifiedMeansIntact | lib/ci_svu.c:177-200 | a verified buffer is the source or holds an explicit block collision with it |
| SvuProperties.IntactIsVerified | lib/ci_svu.c:177-200 | a fully covered buffer equal to the source is verified |
| SvuReceiver.HashBlock | lib/ci_svu.c:37-49 | hashes exactly the bytes of block b, the last block cut at the end |
| SvuReceiver.BuildManifest | lib/ci_svu.c:51-66 | the digests of all blocks in order, none when the count is 0 |
| SvuReceiver.Session.constructor | lib/ci_svu.c:68-93 | a fresh receiver covers nothing and has a consistent geometry |
| SvuReceiver.Session.AcceptFragment | lib/ci_svu.c:106-125 | covered_count stays the number of covered bytes; a fragment past the end changes nothing, any other is stored and marked |
| SvuReceiver.Session.Verify | lib/ci_svu.c:148-200 | the verdict, the number of ranges, and as many of them as fit in the array |
| SvuReceiver.PushInterval | lib/ci_svu.c:138-146 | stores the range if there is room and counts it always |
| SvuWire.Get32IsInverse | svu/svu_proto.h:43-55 | a word reads as v exactly when its four bytes are those of v |
| SvuLayout.WordIsLittleEndian | svu/svu_proto.h:51-55 | a word is read least significant byte first |
| SvuLayout.MagicsSpelled | svu/svu_proto.h:34-35 | the magics are the bytes SVUQ, SVUR and PUVS |
| SvuWire.EncodeRequest | svu/svu_proto.h:75-92 | the encoding of the request with at most 32 ranges |
| SvuLayout.RequestLayout | svu/svu_session.c:121-134 | the fields of every request the client sends, at their byte offsets: session 1, the mtu and block size given, address 0, the ranges |
| SvuWire.DecodeRequest | svu/svu_proto.h:95-118 | returns a request exactly when the buffer starts with the encoding of an acceptable one; re-encoding gives back that prefix |
| SvuWire.EncodingIsUnambiguous | svu/svu_proto.h:75-118 | a buffer starts with the encoding of at most one acceptable request |
| SvuWire.AnnounceRoundTrip | svu/svu_proto.h:127-171 | announcing round-trips what fits, except exactly the bare paths of 8 bytes or more that begin with the magic |
| SvuLayout.AnnounceLayout | svu/svu_proto.h:127-145 | where the magic, the mode and the path of an announce are, and how a path too long for the buffer is cut |
| SvuLayout.AnnounceCut | svu/svu_proto.h:147-171 | what a decoder takes for the mode and the path, and where it cuts the path |
| SvuServer.BlastInterval | svu/svu_serve.c:67-84 | emits the fragments of the range |
| SvuLayout.PacketLayout | svu/svu_serve.c:77-80 | a data packet is offset, session and the bytes of the source from there on |
| SvuLayout.FragmentAt | svu/svu_serve.c:70-83 | fragment k of a range starts k payloads into it, is a whole payload or what is left, and there are as many as it takes |
| SvuLayout.RangeSizes | svu/svu_serve.c:70-73 | every packet of a range but the last is exactly as long as the mtu, and none is longer |
| SvuServer.SendManifest | svu/svu_serve.c:51-64 | emits the manifest in 200-byte chunks |
| SvuLayout.ChunkAt | svu/svu_serve.c:51-64 | chunk k of a manifest is its bytes from 200 k on, 200 of them or what is left |
| SvuServer.Serve | svu/svu_serve.c:111-158 | decodes the packet and answers exactly acceptable requests: header, manifest and the blast of the requested ranges, the whole file when none is named |
| SvuLayout.AnswerSizes | svu/svu_serve.c:123-156 | the data packets of an answer fit the mtu of the request, or 256 where it asks for 8 or less, and carry its session |
| SvuLayout.HeaderLayout | svu/svu_serve.c:128-137 | the fields of the response header at their byte offsets |
| SvuDelivery.CoverageAfter | svu/svu_session.c:21-32 | whatever arrives, coverage is what was covered plus where packets land |
| SvuDelivery.DataAfterGenuine | lib/ci_svu.c:106-125 | genuine packets leave the source's byte where one landed and the old byte elsewhere |
| SvuDelivery.OnlyTheSetMatters | lib/ci_svu.c:106-125 | order and multiplicity of genuine packets do not matter |
| SvuDelivery.LossNeverCorrupts | lib/ci_svu.c:106-200 | loss, duplication and reordering never give CORRUPT, and full coverage is verified |
| SvuDelivery.BlastCovers | svu/svu_serve.c:142-156 | a blast carries the source's bytes and lands exactly on what was requested |
| SvuClient.ChunksFlatten | svu/svu_serve.c:51-64 | the chunked manifest reassembles to itself |
| SvuClient.KeptLength | svu/svu_session.c:79-93 | what arrives of a stream is as long as the stream only if nothing was lost |
| SvuClient.CtrlExchange | svu/svu_session.c:58-100 | for any packets read: an answer exactly when the first looks like a header and as many bytes as it announces follow, and which |
| SvuClient.ExchangeIsExact | svu/svu_session.c:58-100 | for every lossy delivery: the announced values exactly when nothing was lost, other values exactly when the header was lost and the first chunk reads as an answer, failure otherwise |
| SvuClient.UnmistakableIsExact | svu/svu_session.c:58-93 | the condition on the manifest holds exactly when no loss can make the client take other values |
| SvuClient.LostHeaderMisleads | svu/svu_session.c:58-71 | for every one-block file whose digest reads as a header without a manifest, a delivery that makes the client take what the digest says |
| SvuClient.UnmistakableIsEnough | svu/svu_session.c:58-93 | under that condition no attempt of any run misreads a chunk |
| SvuClient.Negotiate | svu/svu_session.c:136-149 | the first of eight attempts that reads as an answer, or none |
| SvuLayout.EightAttempts | svu/svu_session.c:143-149 | an answer is found exactly if one of the first eight attempts reads as one |
| SvuClient.DrainData | svu/svu_session.c:21-32 | stores the payload of every packet longer than its header, in order |
| SvuClient.AskAgain | svu/svu_session.c:121-134 | the request bytes of a round encode exactly the ranges of the last verdict, between 1 and 32 after the first round |
| SvuClient.FirstRound | svu/svu_session.c:121-177 | the first round: the whole-file request sent, the session opened on the answer, the verdict and the ranges kept |
| SvuClient.LaterRound | svu/svu_session.c:121-177 | a later round: the request sent, the receiver, the verdict and the ranges kept for the next round |
| SvuClient.ClientRun | svu/svu_session.c:103-199 | against an adversarial data channel: the bytes of every request, none empty after the first; success only in the first verified round and only with the source or an explicit collision; and why a run gives up |
| SvuConvergence.HolesAfterRound | svu/svu_session.c:168-177 | a round that asked for n holes leaves the others and at most one more for each place where a fragment that landed on a missing byte not asked for ends |
| SvuConvergence.FailuresAfterRound | lib/ci_svu.c:177-194 | a round that asked for n failing blocks leaves at most the others and the disturbed ones |
| SvuConvergence.DisturbedMeansCollision | lib/ci_svu.c:177-194 | a block can start to fail only if it held a collision and a fragment landed in it |
| SvuConvergence.RoundProgress | svu/svu_session.c:168-177 | every faithful round strictly lowers the number of rounds left, net of its own strays and disturbed blocks |
| SvuConvergence.Converges | svu/svu_session.c:121-177 | for any hash, a good run of that many rounds reaches a verified state despite the 32-range cap |
| SvuConvergence.RoundsLeftBound | svu/svu_proto.h:36 | with m holes, n blocks, x distinct stray ends and d disturbed blocks the number is at most ceil((m+x)/32) + ceil(n/32) + d |
| SvuConvergence.OneFragmentIsProgress | lib/ci_svu.c:106-125 | while incomplete, one requested fragment that arrives lowers the number of missing bytes |
| SvuUpload.AnswerToRequest | svu/svu_serve.c:111-158 | for the request of a round the sender answers with its control stream and the blast of exactly the ranges asked for |
| SvuUpload.RequestIsServable | svu/svu_serve.c:67-84 | where payload size and mtu fit 32 bits, the sender can answer the request and no offset of the answer wraps |
| SvuUpload.Upload | svu/svu_session.c:103-199 | for any hash: a data channel arbitrary at first and afterwards, for as many rounds as are enough for what is then held, delivering what the sender answers to each request, and a control channel that lets one exchange a round through: the run ends with the file |
| SvuWorstCase.CoverProgress | lib/ci_svu.c:160-176 | whatever else arrives, covering the ranges asked for takes one round off the worst case |
| SvuWorstCase.WorstStep | lib/ci_svu.c:160-176 | filling the ranges asked for and cutting the other holes into single bytes takes exactly one off |
| SvuWorstCase.NeverLonger | svu/svu_session.c:121-177 | for any hash, every good run of Enough rounds ends verified |
| SvuWorstCase.EnoughBound | svu/svu_session.c:121-177 | Enough is at most CoverRounds and the number of wrong blocks, and at most a number that depends on the sizes alone |
| SvuWorstCase.WorstRun | svu/svu_session.c:121-177 | for any hash and every number of rounds below Needed there is a good run that does not end verified |
| SvuWorstCase.WorstCaseIsExact | svu/svu_session.c:121-177 | for any hash, Enough rounds always end verified and fewer than Needed do not; without slippery blocks the two are equal, which is an if-and-only-if |
| SvuWorstCase.FewHolesMeetPlainBound | svu/svu_proto.h:36 | with at most 32 holes and no slippery block every good run of ceil(m/32) + ceil(nblocks/32) rounds ends verified |
| SvuWorstCase.PlainBoundFails | svu/svu_session.c:168-177 | a reachable receiver with 33 holes and a good run of that many rounds that does not end verified |
| SvuWorstCase.PlainBoundFailsOnCollision | lib/ci_svu.c:177-194 | a fully covered receiver, for every hash with a certain collision, and a good run of that many rounds that does not end verified |
| HashSpec.ZeroCountIsSmallest | lib/ci_sha256.c:71-86 | the zero padding is the smallest that section 5.1.1 of FIPS 180-4 allows |
| HashSpec.AbsorbBlock | lib/ci_sha256.c:59-69 | absorbing one more block is one more compression |
| Sha256Stream.Context.constructor | lib/ci_sha256.c:50-57 | nothing absorbed, the initial hash value |
| Sha256Stream.Context.Update | lib/ci_sha256.c:59-69 | appends the data to what was absorbed, compressing each full buffer through the transform |
| Sha256Stream.Context.Final | lib/ci_sha256.c:71-93 | the digest of everything absorbed, through the one-block and the two-block padding |
| Sha256Message.HashPieces | lib/ci_sha256.c:50-93 | for any split into updates, the digest of the joined message |
| Sha256Message.Sha256Pieces | lib/ci_sha256.c:50-93 | for any split into updates, and through the loops of the transform, SHA-256 of the joined message |
| Sha256Laws.ChChooses | lib/ci_sha256.c:20 | where x has a one Ch takes y, elsewhere z |
| Sha256Laws.MajVotes | lib/ci_sha256.c:21 | where x and y agree Maj is what they agree on, elsewhere z decides |
| Sha256Laws.BigSigma0Bits | lib/ci_sha256.c:22 | bit i is the exclusive or of bits i+2, i+13 and i+22 modulo 32 |
| Sha256Laws.BigSigma1Bits | lib/ci_sha256.c:23 | bit i is the exclusive or of bits i+6, i+11 and i+25 modulo 32 |
| Sha256Laws.SmallSigma0Bits | lib/ci_sha256.c:24 | bit i is the exclusive or of bits i+7 and i+18 modulo 32 and bit i+3 where there is one |
| Sha256Laws.SmallSigma1Bits | lib/ci_sha256.c:25 | bit i is the exclusive or of bits i+17 and i+19 modulo 32 and bit i+10 where there is one |
| Sha256Laws.LoadStore | lib/ci_sha256.c:29-32 | a word is stored most significant byte first, and loaded back |
| Sha256Constants.PrimesInOrder | lib/ci_sha256.c:5-17 | the table behind the constants lists the first 64 primes in order |
| Sha256Constants.RoundConstantsAreCubeRoots | lib/ci_sha256.c:5-17 | round constant t is the first 32 bits of the fractional part of the cube root of prime t |
| Sha256Constants.InitialWordsAreSquareRoots | lib/ci_sha256.c:50-57 | word t of the initial value is the first 32 bits of the fractional part of the square root of prime t |
| Sha256Vector.DigestOfAbc | tests/test_lib.c:401-403 | the digest of the message abc |
| SvuHash.Sha256Block | lib/ci_svu.c:37-49 | the hash of a block is SHA-256 of its bytes |
| Sha256Transform.Transform | lib/ci_sha256.c:27-48 | the loops compute the compression function of section 6.2.2 |
| SeqProperties.Conservation | lib/ci_meas.c:39-88 | for every feed sequence, seen = distinct + duplicates and span - distinct = gaps - reorders |
| SeqProperties.CountersCount | lib/ci_meas.c:39-88 | for every feed sequence, the reorder and duplicate counters count the feeds so classified, and the gap counter the positions jumped |
| SeqProperties.FeedRefines | lib/ci_meas.c:39-88 | inside the window one feed answers as an unbounded set would, and represents the larger set |
| SeqProperties.TrackerRefinesSet | lib/ci_meas.c:19-88 | over every run in the window, across any number of wraps, the bitmap tracker represents the set of positions |
| SeqProperties.EveryFeedIsClassified | lib/ci_meas.c:39-88 | each feed of such a run is classified as the set would |
| SeqProperties.CountersObserve | lib/ci_meas.c:39-88 | for every run in the window, reorders are the positions first seen below the highest so far, duplicates those seen before, gaps the positions passed over |
| SeqProperties.LossIsHoles | lib/ci_meas.c:90-96 | the loss is exactly the number of positions between first and highest that never came |
| SeqProperties.WindowIsTight | lib/ci_meas.c:79-87 | one position further back, one never seen is called a duplicate |
| SeqTracker.SequenceTracker.BitGet | lib/ci_meas.c:19-22 | reads the flag of a position |
| SeqTracker.SequenceTracker.BitSet | lib/ci_meas.c:24-31 | changes the flag of a position and no other |
| SeqTracker.SequenceTracker.FeedOne | lib/ci_meas.c:39-88 | all fields and the bitmap after one feed, with the clearing loop |
| RttSpec.PairedAtMostOnce | lib/ci_meas.c:119-147 | over any run no data packet is paired twice |
| RttSpec.PairingExplained | lib/ci_meas.c:119-147 | after any run an ACK pairs with the newest data packet of that number, among the last 256, not paired before, or with none; the time reported is the time since that packet |
| RttRing.Pairing.OnData | lib/ci_meas.c:119-128 | appends to the history, across wrap of the 32-bit head |
| RttRing.Pairing.OnAck | lib/ci_meas.c:130-147 | pairs with the newest open record of that number among the last 256, consumes it, and reports the elapsed time |
| Prng.SplitMixIsBijective | lib/ci_prng.h:19-24 | splitmix64 is undone on both sides |
| Prng.DrawIsBijective | lib/ci_prng.h:27-29 | for each seed, drawing is a bijection of the indices |
| Prng.DrawIsInjective | lib/ci_prng.h:27-29 | distinct indices never share a draw |
| Prng.SplitMixVector | tests/test_lib.c:101-102 | the first output of the mixer |
| Prng.DrawOfWord | lib/ci_prng.h:27-29 | the draw of an index mixes the seed with the word that denotes it |
| Words.ValueNext | lib/ci_prng.h:27-29 | the number a word denotes goes up by one from each word to the next, from 0 (ValueOfZero) |
| Prng.BelowCount | lib/ci_prng.h:27-29 | for every seed exactly t of the 2^64 indices draw below t |
| DropRule.DropCount | lib/ci_rule.c:94-122 | for every seed and p in (0,1) exactly floor(p * 2^64) indices are dropped |
| DropRule.DropsAreNested | lib/ci_rule.c:107-121 | what a lower probability drops, a higher one drops |
| DropRule.FragmentOfOffset | lib/ci_dtp.c:3-22 | the index of a payload that starts with a little-endian offset is the offset divided by the payload of a fragment, 0 where there is none |
| DropRule.FragmentsNumbered | lib/ci_dtp.c:15-22 | the fragments of a transfer are numbered 0, 1, 2 and so on |
| DropRule.TrailerReadBack | lib/ci_rdp.c:11-20 | the RDP header is the last five bytes, whatever comes before |
| DropRule.FlowIndexOf | lib/ci_rule.c:68-92 | an RDP frame is keyed by its number and moves the tracker, a frame without a header has key 0, any other its fragment index |
| DropRule.FlowTracker.Index | lib/ci_rule.c:68-92 | the tracker after the frame and the frame's key |
| FlowProperties.WrapIsForwardCrossing | lib/ci_rule.c:25-32 | the wrap test fires exactly on a forward crossing of a multiple of 65536 |
| FlowProperties.IndexLaw | lib/ci_rule.c:68-83 | the index is the true position plus one epoch a backward crossing, modulo 2^48, hence exact if and only if there was none |
| FlowProperties.BackwardStepShifts | lib/ci_rule.c:68-83 | three numbers after which the index is an epoch off |
| FlowProperties.UnwrappersAgree | lib/ci_meas.c:55-77 | on forward streams index and epoch equal the sequence tracker's head and epoch |
| GilbertElliott.Fill | lib/ci_ge.c:45-72 | fills the vector with the trajectory of the chain |
| GilbertElliott.Chain.Step | lib/ci_ge.c:88-108 | call number k answers entry k of the same trajectory |
| GilbertElliott.TrajectoryExtends | lib/ci_ge.c:45-72 | a longer fill extends a shorter one |
| GilbertElliott.Transitions | lib/ci_ge.c:58-71 | transmission i starts a burst or ends one by its own draw against its own threshold |
| GilbertElliott.ParamsHitTarget | lib/ci_ge.c:4-20 | between the extremes the mean burst and the share of bad transmissions are the targets, where a probability of at most 1 can reach them |
| GilbertElliott.NeverDrops | lib/ci_ge.c:10-12 | a target loss of 0 or less never drops |
| GilbertElliott.DropsForever | lib/ci_ge.c:36-40 | a target loss of 1 or more keeps at most two transmissions and then drops forever |
| GilbertElliott.SeededDrawsInjective | lib/ci_ge.c:49-58 | the draws of a mixed seed never repeat, so the extremes hold for every seed |
| InjectorProperties.NothingUnaccounted | inject/ci_drop_iface.c:10-54 | drops + forwarded + passthrough is the number of calls, and every in-scope frame is logged once |
| InjectorProperties.LogNamesFrames | inject/ci_drop_iface.c:34-42 | the log has one row for each frame in scope, in order, with its addresses and flags, and for RDP its epoch and number |
| InjectorProperties.ScopeIs | lib/ci_rule.c:34-50 | in scope is exactly the port to match and, where asked for, an RDP SYN |
| InjectorProperties.ShortIsNoSyn | lib/ci_rule.c:6-23 | a frame too short for an RDP header is no SYN |
| InjectorProperties.DroppedXorForwarded | inject/ci_drop_iface.c:28-53 | over any run no index is both dropped and forwarded |
| InjectorProperties.AttemptsFollowTrajectory | inject/ci_drop_iface.c:28-32 | in per-attempt mode the k-th in-scope transmission gets entry k of the trajectory, whatever is sent |
| InjectorProperties.GeExtremes | inject/ci_drop_iface.c:75-83 | for every seed and run: target 0 drops nothing, target 1 keeps at most two transmissions and drops the rest |
| InjectorProperties.ThresholdIsDecision | lib/ci_ge.c:29-43 | below the extremes the threshold for p splits the draws as a rule of probability p does |
| InjectorProperties.ReplayIsTrajectory | lib/ci_rule.c:99-105 | a rule that replays a filled vector drops index k exactly if entry k says so |
| InjectorProperties.OraclesDisjoint | apm/csp_monitor_apm.c:125-135 | no fragment index the monitor writes is ever one the drop log calls dropped, if and only if the scope takes in DTP data or no fragment index is dropped |
| InjectorProperties.MonitorIndexes | apm/csp_monitor_apm.c:125-135 | the monitor writes an index exactly for frames on port 8 that are not RDP: the offset divided by the payload of a fragment |
| InjectorProperties.BothNamed | lib/ci_rule.c:34-50 | for every other rule, frames that make both oracles name the same index |
| InjectorProperties.SynReaches | lib/ci_rule.c:68-83 | SYN frames can take the flow index to any 32-bit value |
| InjectorProperties.ProxyEqualsShim | proxy/zmqproxy.c:606-627 | with a port to match, over every sequence of frames proxy and shim give the same log, drops and forwarded frames |
| InjectorProperties.InterchangeableIffPort | proxy/zmqproxy.c:774-806 | they do so over all runs if and only if the rule names a port |
| InjectorProperties.CoinDecides | proxy/zmqproxy.c:804-806 | without a port the coin alone decides, and nothing is logged |
| Injectors.DropShim.Transmit | inject/ci_drop_iface.c:10-54 | tracker, chain, counters, log and delivered frames after one call |
| Injectors.LossyProxy.Forward | proxy/zmqproxy.c:774-827 | the proxy's globals, log and published frames after one frame, with a port to match or without |
| Bridge.PumpAccounts | tests/e2e/ci_inject_bridge.c:237-268 | the bridge's and the shim's counters and the duplicates add up to the frames read |
| Bridge.PumpSelects | tests/e2e/ci_inject_bridge.c:237-268 | the shim sees exactly the source's ingress frames in order, the ingress exactly the others' egress frames, the counters count the rest |
| Bridge.InjectBridge.Pump | tests/e2e/ci_inject_bridge.c:237-268 | the loop over a queue with timeouts and duplicates |
| BridgeNetwork.StepLosesWeight | tests/e2e/ci_inject_bridge.c:223-236 | every read lowers the weight of the frames in flight |
| BridgeNetwork.NeverLoops | tests/e2e/ci_inject_bridge.c:223-236 | whatever the media reflect: each original crosses at most once and nothing else does, the number of reads is bounded, each is counted once, and what reached the egress is what the shim delivered |
| BridgeNetwork.Quiescence | tests/e2e/ci_inject_bridge.c:230-268 | with the source on the ingress side only, once the media are quiet: every original has crossed exactly once; the source's reached the egress as the shim delivered them or were dropped by it, the others went back; each echo counter is the number of copies its medium reflected |

## Left out

- CSP, ZMQ and SocketCAN calls, sockets, threads, timeouts, pacing and signals: what they deliver is a parameter.
- svu_load_file, svu_net.c, svu_debug.c, svu_daemon.c, svu_push.c, svu_apm.c and the command line: file and argument handling around the modelled loops; the model stops at the verified buffer.
- Allocation failure and NULL arguments: every allocation succeeds and every pointer is valid.
- SvuServer.BlastInterval: requires that no 32-bit offset wraps; where one does, the C loop copies from beyond the file, which has no defined meaning. The 16-bit packet length is not modelled.
- SvuServer.SendManifest: the same, for manifests within 200 bytes of 2^32.
- SvuServer.Serve: the same, for the ranges of the request; `RequestIsServable` shows that the client's requests meet it where payload size and mtu fit 32 bits, as `Upload` asks.
- SvuClient.CtrlExchange: requires that the 32-bit count of bytes read does not wrap; where it does, the C code copies past its buffer. Reordering on the control connection is not covered by the theorems about deliveries.
- SeqTracker.SequenceTracker.FeedOne: counters and positions are unbounded integers; the C ones wrap at 2^64.
- GilbertElliott.Fill: probabilities are reals, so IEEE rounding of ci_ge_params is not modelled; the scaling by 2^64 is exact in both.
- ci_loss_trustworthy, ci_u8_delta and ci_measurement_suspect: short comparisons with nothing to relate them to.
- The proxy's corruption, delay and half-duplex modes, its oversized-frame check, and time stamps in the logs: not reproducible, or not part of the decision; what rand() says is a parameter.
- SvuWorstCase.WorstCaseIsExact: one way in each direction where some wrong block can come to have the right digest; between Needed and Enough the answer depends on which mixtures of which blocks collide under the given hash.
- The monitor's CSV and window code, cspx, satguard, scripts and plots: formatting and table handling.
- Statistical claims about sampled draws (marginal loss, burst length, calibration): not decided by the code.
