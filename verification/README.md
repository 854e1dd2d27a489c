# ReLink in Dafny

A model of ReLink, a UDP and shared-memory publish/subscribe middleware, and proofs about it: the shared-memory ring and
its crash takeover, image chunking from publisher to callback over a lossy network, the rlcore registry daemon and the
relays, AES-256-GCM, the topic directory, and three smaller state machines.

The project verifies with Dafny 4.11: `dafny verify dfyconfig.toml`.

| file | models |
|---|---|
| `Wire`, `Options`, `Slots`, `Order` | little-endian fields, absent results, a buffer as slots, sorted iteration |
| `ShmRing`, `ShmOpen` | the single-producer single-consumer ring as interleaved byte-sized steps; opening, crashing, taking over |
| `Gf256`, `Aes`, `AesExample`, `Ghash`, `Gcm` | AES-256 (FIPS 197), its published example, and Galois/Counter Mode (NIST SP 800-38D), as the code computes them |
| `Frame`, `Dedup`, `Reassembly`, `EndToEnd` | data frames, duplicate suppression, image chunks, and all of them composed |
| `Register`, `Directory`, `RelayWire` | the registration, directory and relay packets |
| `Registry`, `Dispatch`, `Rlcore` | the rlcore daemon: its tables against the history of packets, sorting of datagrams, the main loop |
| `Relay` | the standalone relay |
| `H264`, `Transports`, `Bitrate` | the access-unit splitter, ports per topic, the adaptive quality controller |

Code that updates state is a class whose methods are proved equal to a function on values (`View()` gives the value), and
the theorems are about runs of that function. Clocks, random nonces and received packets are inputs.

## Where the code and its documentation disagree

The model follows the code. Each of these is a lemma, with the exact condition.

- Taking over a segment: a live owner can be displaced (`ShmOpen.LiveOwnerDisplaced`). A claim takes the segment from the
  owner its opener found dead exactly when nobody published since (`ShmOpen.ClaimsDeadOwnerExactly`).
- Recovering a leaked segment: one whose creator dies before publishing never is (`ShmOpen.CreatorDiesEarly`). A segment
  is unrecoverable exactly when some process died in the middle of its initialisation (`ShmOpen.AbandonedExactly`,
  `ShmOpen.RecoverableExactly`).
- Duplicate suppression: sequence numbers are said never to be reused for a different payload, but publishers of one topic
  count independently from 0 (`Dedup.SecondPublisherLost`, exactly: `Dedup.DroppedExactly`). Within one image, chunks sent
  to several peers can share a number too, and the image is then lost or not by the order of arrival
  (`EndToEnd.OvertakenImageLost`, exactly: `EndToEnd.PublishedIsDelivered`).
- The relay branch of the daemon is said never to take a registration: it takes those whose address ends in 35, that is
  0x23, if they name a topic (`Dispatch.RequestStolen`, exactly: `Dispatch.PlainRequestRecognised`), and with a key set
  those whose random nonce starts with 0x23 (`Dispatch.SealedRequestRecognised`).
- An acknowledgement with more than 4094 peers, or 4092 when sealed, is not sent whole (`Rlcore.AckComplete`); the count is
  narrowed to sixteen bits before it is checked, so past 65535 the front of the list may be sent as if it were all.
- A topic declared again can be moved to another port without an error (`Transports.PortMoves`,
  `Transports.ImageTopicMoves`, exactly: `Transports.MovesExactly`).
- The standalone relay sweeps after handling a packet, so a frame can still go to a member whose 30 seconds ran out since
  the packet before it (`Relay.LateCopy`, exactly: `Relay.ForwardsExactly`).

## Model

| member | source | states |
|---|---|---|
| ShmRing.RunInv | cpp/include/relink/shm_transport.hpp:156-209 | every state reached by interleaving producer and consumer steps, one byte at a time, keeps the ring's invariant |
| ShmRing.RefinesQueue | cpp/include/relink/shm_transport.hpp:156-209 | under every interleaving the ring does, step by step, what a bounded queue without memory or indices does with the same actions |
| ShmRing.PushCompletes | cpp/include/relink/shm_transport.hpp:156-170 | with room, a push that fits is in after its 10 + payload steps, however the consumer interleaves |
| ShmRing.PopCompletes | cpp/include/relink/shm_transport.hpp:172-184 | with a message in the ring, 11 + payload consumer steps take out the oldest, whatever the producer does |
| ShmRing.RecordLayout | cpp/include/relink/shm_transport.hpp:163-167 | sequence number, length and payload stand at bytes 0, 4 and 8 of a slot |
| ShmRing.Fifo | cpp/include/relink/shm_transport.hpp:156-209 | under every interleaving, popped messages followed by the ring's contents are the pushed ones, with at most capacity - 1 outstanding |
| ShmRing.WriterAlone | cpp/include/relink/shm_transport.hpp:156-209 | the slot being written is never the one being read nor one holding an unread message |
| ShmRing.FullIsTrue | cpp/include/relink/shm_transport.hpp:156-170 | "full" is answered exactly when capacity - 1 messages were outstanding at the moment `head` was loaded |
| ShmRing.EmptyIsTrue | cpp/include/relink/shm_transport.hpp:172-184 | "empty" is answered exactly when nothing was outstanding at the moment `tail` was loaded |
| ShmRing.AccessesInBounds | cpp/include/relink/shm_transport.hpp:163-183 | no byte outside the side's own slot is ever touched, also where the length is read from shared memory |
| ShmRing.ZeroCopyView | cpp/include/relink/shm_transport.hpp:197-209 | while the callback runs, its slot reads as the next pushed message whatever the producer does |
| ShmRing.Ring.TryPush | cpp/include/relink/shm_transport.hpp:156-170 | refuses exactly oversized payloads and a full ring, and otherwise appends to the queue the mapping holds |
| ShmRing.Ring.TryPop | cpp/include/relink/shm_transport.hpp:172-184 | returns and removes the oldest message, or reports exactly emptiness |
| ShmOpen.RunInv | cpp/include/relink/shm_transport.hpp:88-152 | the invariant of any number of openers, crashes and takeovers, with look and compare-and-swap as separate steps |
| ShmOpen.LayoutNeverChanges | cpp/include/relink/shm_transport.hpp:121-152 | once published, version, slot size and capacity never change again |
| ShmOpen.ClaimedOnce | cpp/include/relink/shm_transport.hpp:135-146 | each published magic is claimed by at most one winner, and at most one opener initialises at a time |
| ShmOpen.AttachAgrees | cpp/include/relink/shm_transport.hpp:128-149 | every successful opener agrees with the header on all three fields, from then on |
| ShmOpen.PollerOutcomeExactly | cpp/include/relink/shm_transport.hpp:128-149 | three steps after it sees the magic a poller is refused exactly if the layout differs, attached exactly if the owner is itself or alive, and else about to take over |
| ShmOpen.StealerOutcomeExactly | cpp/include/relink/shm_transport.hpp:139-146 | the compare-and-swap claims the segment exactly if the magic is still shown |
| ShmOpen.WaiterOutcomeExactly | cpp/include/relink/shm_transport.hpp:127-151 | without the magic a poller waits, until it gives up |
| ShmOpen.InitialiserPublishes | cpp/include/relink/shm_transport.hpp:226-234 | seven steps of an initialiser write every field and publish |
| ShmOpen.SecondProcessAttaches | cpp/include/relink/shm_transport.hpp:88-149 | a second process attaches to a segment just created |
| ShmOpen.AbandonedForever | cpp/include/relink/shm_transport.hpp:121-152 | once abandoned, a segment stays so over every continuation: the magic never returns |
| ShmOpen.AbandonedExactly | cpp/include/relink/shm_transport.hpp:226-234 | a segment is abandoned exactly when at some point a process died between its claim, or the creation, and the publication |
| ShmOpen.CrashAbandons | cpp/include/relink/shm_transport.hpp:226-234 | in particular the death of whoever is initialising abandons it |
| ShmOpen.RecoverableExactly | cpp/include/relink/shm_transport.hpp:214-217 | a created segment can be published again exactly when it is not abandoned |
| ShmOpen.CreatorDiesEarly | cpp/include/relink/shm_transport.hpp:214-217 | a concrete crash that is never recovered from |
| ShmOpen.ClaimsDeadOwnerExactly | cpp/include/relink/shm_transport.hpp:134-146 | without pid reuse, a claim takes the segment from the owner this opener found dead exactly when nobody published since it looked |
| ShmOpen.DisplacesOnlyAfterRepublication | cpp/include/relink/shm_transport.hpp:134-146 | hence a live owner is displaced only after such a publication |
| ShmOpen.LiveOwnerDisplaced | cpp/include/relink/shm_transport.hpp:134-146 | a concrete run in which a live owner is displaced |
| Gf256.SboxIsFips | cpp/include/relink/crypto.hpp:43-59 | every table entry is the affine image of the field inverse (section 5.1.1 of FIPS 197) |
| Gf256.GMulByTwoAndThree | cpp/include/relink/crypto.hpp:94-107 | the general product by 2 and by 3 is what doubling and adding give |
| Gf256.GMulAdds | cpp/include/relink/crypto.hpp:97-107 | multiplication in GF(2^8) distributes over addition |
| Gf256.UnmixesByte | cpp/include/relink/crypto.hpp:132-141 | the coefficients 0e, 0b, 0d, 09 of section 5.3.3 of FIPS 197 undo the mixing of a column |
| Aes.RconIsPowerOfTwo | cpp/include/relink/crypto.hpp:61-63 | the round constants are the powers of x (section 5.2 of FIPS 197) |
| Aes.Aes256.constructor | cpp/include/relink/crypto.hpp:68-92 | the expanded key is the recursive key schedule of section 5.2 of FIPS 197 |
| Aes.Aes256.EncryptBlock | cpp/include/relink/crypto.hpp:109-154 | the in-place rounds compute the cipher of section 5.1 of FIPS 197 |
| Aes.RoundColumns | cpp/include/relink/crypto.hpp:143-148 | a round in one formula: column c is mixed from the substituted diagonal starting there, and masked with its key word |
| Aes.InvCipherUndoes | cpp/include/relink/crypto.hpp:109-154 | the inverse cipher of section 5.3 of FIPS 197 undoes the cipher, for every schedule and block |
| AesExample.ExampleEncrypts | cpp/include/relink/crypto.hpp:68-154 | key expansion and cipher give the ciphertext of appendix C.3 of FIPS 197 |
| Aes.CipherInjective | cpp/include/relink/crypto.hpp:109-154 | for every key, two blocks with the same encryption are the same block |
| Ghash.DotIsBlockProduct | cpp/include/relink/crypto.hpp:159-176 | the byte-wise product is the block multiplication of section 6.3 of NIST SP 800-38D on bit strings |
| Ghash.Gf128Mul | cpp/include/relink/crypto.hpp:159-176 | the in-place loop computes that product |
| Ghash.MultiplyLinear | cpp/include/relink/crypto.hpp:159-176 | the product is linear over exclusive or in each argument |
| Ghash.Hash | cpp/include/relink/crypto.hpp:181-203 | the loop over padded blocks and the length block computes GHASH (section 6.4) |
| Ghash.GHashIsPolynomial | cpp/include/relink/crypto.hpp:181-203 | the hash is the polynomial in H whose coefficients are the padded blocks and then the length block |
| Ghash.LengthBlockReads | cpp/include/relink/crypto.hpp:195-199 | the length block is eight zero bytes and the number of ciphertext bits |
| Ghash.GHashXor | cpp/include/relink/crypto.hpp:181-203 | the difference of the hashes of two equally long inputs depends only on the inputs' difference |
| Gcm.Inc32TimesCounts | cpp/include/relink/crypto.hpp:205-212 | incrementing k times adds k modulo 2^32 to the last four bytes and leaves the rest |
| Gcm.CountersDiffer | cpp/include/relink/crypto.hpp:205-212 | fewer than 2^32 increments never repeat a counter |
| Gcm.GctrInto | cpp/include/relink/crypto.hpp:214-225 | the chunked loop writes the counter-mode output (section 6.5), partial last block included, and nothing else |
| Gcm.GctrTwice | cpp/include/relink/crypto.hpp:214-225 | counter mode undoes itself |
| Gcm.SealInto | cpp/include/relink/crypto.hpp:278-321 | writes nonce, ciphertext and tag exactly when they fit, and otherwise nothing |
| Gcm.OpenInto | cpp/include/relink/crypto.hpp:327-366 | succeeds exactly when the message opens and fits, and writes nothing unless the tag matches |
| Gcm.OpenSealed | cpp/include/relink/crypto.hpp:278-366 | opening a sealed message returns the plaintext, for every key, nonce and length |
| Gcm.OpensExactlySealed | cpp/include/relink/crypto.hpp:327-366 | a message opens to a plaintext exactly when it is that plaintext sealed under its own nonce |
| Gcm.TagIsMaskedHash | cpp/include/relink/crypto.hpp:311-319 | the tag is GHASH of the ciphertext under the encrypted zero block, masked with the encryption of nonce and 1 (section 7.1) |
| Gcm.TagDifference | cpp/include/relink/crypto.hpp:311-319 | tags of two ciphertexts of one length differ by a product their difference alone decides |
| Gcm.TamperedOpensExactly | cpp/include/relink/crypto.hpp:343-358 | a replaced ciphertext is accepted exactly when that product is zero |
| Gcm.CounterBlockIs | cpp/include/relink/crypto.hpp:302-309 | block i is encrypted under the nonce and the count i + 2 |
| Gcm.SealedByteAt | cpp/include/relink/crypto.hpp:302-309 | every ciphertext byte is its plaintext byte masked with that block's byte |
| Gcm.KeystreamNeverRepeats | cpp/include/relink/crypto.hpp:302-309 | within a message no two full keystream blocks are equal, and none equals the block that masks the tag |
| Gcm.MasksDiffer | cpp/include/relink/crypto.hpp:278-321 | so in one sealed message plaintext and ciphertext differ by another block at every full block |
| Gcm.SameBytes | cpp/include/relink/crypto.hpp:356-358 | the accumulated difference is zero exactly when the tags are equal |
| Wire.LittleEndian | cpp/include/relink/wire.hpp:1-30 | integers on the wire are least significant byte first |
| Frame.DecodesExactlyEncoded | cpp/include/relink/frame.hpp:93-128 | a buffer decodes to a frame exactly when it is that frame's encoding |
| Frame.EncodeInto | cpp/include/relink/frame.hpp:53-83 | refuses exactly oversized payloads and short buffers, and then writes nothing |
| Frame.Layout | cpp/include/relink/frame.hpp:53-83 | where each field of a frame stands |
| Frame.ScatteredIsEncoded | cpp/include/relink/udp_transport.hpp:198-233 | the pieces handed to the kernel are the bytes of one encoded frame |
| Dedup.Receiver.IsRecentDuplicate | cpp/include/relink/udp_transport.hpp:394-411 | answers exactly "among the last eight accepted on this topic", over any run on any topics |
| Dedup.FiltersPublishes | cpp/include/relink/relink.hpp:417-424 | over any run, with any number of publishers, filtering numbers accepts what filtering the publishes themselves would exactly when no arrival is lost |
| Dedup.FilteredExactly | cpp/include/relink/udp_transport.hpp:402-411 | a copy of one of the last eight accepted is dropped, a lost publish too, and everything else is accepted |
| Dedup.DroppedExactly | cpp/include/relink/udp_transport.hpp:402-411 | a publish not among the last eight accepted is dropped exactly when one of them, of whatever publisher, has a counter a multiple of 65536 away |
| Dedup.NearNeverLost | cpp/include/relink/udp_transport.hpp:394-411 | with one publisher nothing is lost while the last eight accepted are within 65535 of the arriving one |
| Dedup.SecondPublisherLost | cpp/include/relink/udp_transport.hpp:380-380 | two publishers whose counters start alike: both first frames are new, and the second one is lost |
| Reassembly.Split | cpp/include/relink/image.hpp:69-89 | refuses exactly what needs more than 65535 chunks, and otherwise emits every chunk in order; an empty image gives one |
| Reassembly.ChunkCountIsLeast | cpp/include/relink/image.hpp:73-75 | as few chunks as hold the image, one for an empty image |
| Reassembly.Reassembler.OnChunk | cpp/include/relink/compressed_image.hpp:108-139 | the fields after a chunk, and the callback, as a function of the fields before it |
| Reassembly.ReceiveSpec | cpp/include/relink/image.hpp:113-141 | a chunk is ignored, noted, or completes its image, exactly according to what is still missing; copies stay in the buffer |
| Reassembly.RunSafe | cpp/include/relink/image.hpp:113-141 | over any loss, repetition, reordering and interleaving of published chunks, every delivery is the image and metadata published under its id |
| Reassembly.ContiguousDelivered | cpp/include/relink/compressed_image.hpp:108-139 | a frame whose chunks all arrive with no other frame's chunk in between is delivered, whatever came before |
| Reassembly.DeliveredOnce | cpp/include/relink/image.hpp:113-141 | each chunk once in any order gives exactly one callback, at the last arrival |
| EndToEnd.Publisher.PublishScattered | cpp/include/relink/udp_transport.hpp:198-233 | one frame per call under a fresh sequence number; an oversized payload is refused and draws none |
| EndToEnd.Publisher.PublishImage | cpp/include/relink/relink.hpp:505-548 | what each peer is sent for each chunk, byte for byte with its sequence number |
| EndToEnd.ParsesChunk | cpp/include/relink/relink.hpp:592-603 | the topic handler reads back every chunk header and its data, for images and compressed images |
| EndToEnd.ChunkLayout | cpp/include/relink/relink.hpp:650-673 | where each field of a chunk header stands |
| EndToEnd.Subscription.ReceiveAndDispatch | cpp/include/relink/udp_transport.hpp:316-370 | decoding, duplicate suppression, handler and reassembler composed for one datagram |
| EndToEnd.NetworkSafe | cpp/include/relink/udp_transport.hpp:316-370 | whatever bytes arrive besides published chunks, every callback gets an image that was published under its id |
| EndToEnd.DeliveredExactly | cpp/include/relink/relink.hpp:592-603 | the frames of an image, once each in any order, give exactly one callback, at the last arrival, if no arrival repeats one of the eight numbers accepted before it or suppression is off, and otherwise none |
| EndToEnd.PublishedIsDelivered | cpp/include/relink/relink.hpp:505-548 | publish to callback: what one peer is sent, in any order, gives one callback with the original bytes, empty image included, exactly when suppression is off or no chunk follows within eight of one with its number |
| EndToEnd.CopiesDistinct | cpp/include/relink/relink.hpp:542-545 | two chunks to one peer share a sequence number exactly when their distance times the number of peers is a multiple of 65536 |
| EndToEnd.EveryOrderClear | cpp/include/relink/relink.hpp:542-545 | every order is deliverable exactly when no two chunks of the image share a number |
| EndToEnd.SmallFanoutNeverRepeats | cpp/include/relink/relink.hpp:542-545 | which holds while chunks times peers is at most 65536, hence always with one peer |
| EndToEnd.InOrderClear | cpp/include/relink/relink.hpp:542-545 | in the order sent an image of any size is deliverable towards fewer than 8192 peers |
| EndToEnd.OvertakenImageLost | cpp/include/relink/udp_transport.hpp:355-357 | a run without a callback: two peers, more than 32768 chunks, and one of them overtaking |
| Directory.Decode | cpp/include/relink/topic_directory.hpp:148-172 | the decoding loop gives the list read entry by entry, or nothing |
| Directory.DecodesExactly | cpp/include/relink/topic_directory.hpp:148-172 | a buffer decodes to a list exactly when it is that list's packet and meets both caps |
| Directory.EncodeInto | cpp/include/relink/topic_directory.hpp:74-99 | encodes exactly the lists under the entry cap, with short names, that fit the buffer |
| Directory.EntryLayout | cpp/include/relink/topic_directory.hpp:86-97 | where each field of an entry stands |
| Directory.PacketLayout | cpp/include/relink/topic_directory.hpp:74-99 | magic, count and entries in a packet |
| Directory.Chunk | cpp/include/relink/topic_directory.hpp:124-143 | splits in order without loss; no packet could have taken the next entry |
| Directory.ChunksFit | cpp/include/relink/topic_directory.hpp:124-143 | with names of at most 255 bytes every packet meets both caps |
| Directory.GreedyIsOptimal | cpp/include/relink/topic_directory.hpp:227-246 | no in-order split meeting both caps uses fewer packets |
| Directory.RepliesDecode | cpp/include/relink/topic_directory.hpp:291-362 | every packet of a reply is accepted and the packets together hold the list |
| Directory.Reply | cpp/rlcore/relink_rlcore.cpp:327-336 | a list is sent as the greedy split, an empty one as one empty packet, and every packet encodes |
| Register.DecodesExactlyRequests | cpp/include/relink/register.hpp:77-96 | a buffer decodes to a request exactly when it is its encoding |
| Register.EncodeRequest | cpp/include/relink/register.hpp:44-68 | refuses exactly too many topics and short buffers |
| Register.RequestLayout | cpp/include/relink/register.hpp:44-68 | where each field and each topic of a request stands |
| Register.DecodesExactlyAcks | cpp/include/relink/register.hpp:127-145 | a buffer decodes to an acknowledgement exactly when it is its encoding |
| Register.EncodeAck | cpp/include/relink/register.hpp:100-119 | encodes the first `peer_count` peers exactly when they fit |
| Register.PeerLayout | cpp/include/relink/wire.hpp:107-128 | where each field of a listed peer stands |
| Register.AckLayout | cpp/include/relink/register.hpp:100-119 | where each field and each peer of an acknowledgement stands |
| RelayWire.JoinDecodesExactly | cpp/include/relink/relay_wire.hpp:57-61 | exactly the six-byte join requests decode, each to its topic |
| RelayWire.PeeksFrame | cpp/include/relink/relay_wire.hpp:69-73 | every data frame is recognised under its own topic |
| RelayWire.EncodeJoin | cpp/include/relink/relay_wire.hpp:47-54 | writes the six bytes or, without room, nothing |
| RelayWire.JoinLayout | cpp/include/relink/relay_wire.hpp:47-54 | the six bytes of a join |
| Dispatch.PlainRequestRecognised | cpp/rlcore/relink_rlcore.cpp:379-411 | a plaintext request reaches the registration branch exactly unless its address spells a magic or, relaying, ends in 0x23 with a topic named |
| Dispatch.SealedRequestRecognised | cpp/rlcore/relink_rlcore.cpp:379-432 | a sealed request does exactly unless its nonce spells a magic or, relaying, begins with 0x23 |
| Dispatch.RequestStolen | cpp/rlcore/relink_rlcore.cpp:379-411 | a concrete registration that is forwarded as data |
| Dispatch.ReachesRegistration | cpp/rlcore/relink_rlcore.cpp:292-411 | which datagrams are left for the registration branch |
| Dispatch.NameQueryExactly | cpp/rlcore/relink_rlcore.cpp:292-300 | a datagram is a name query exactly when it begins with RLNQ |
| Dispatch.RoleQueryExactly | cpp/rlcore/relink_rlcore.cpp:340-360 | a datagram is a role query exactly when it begins with RLPQ |
| Dispatch.NamesAnnounced | cpp/rlcore/relink_rlcore.cpp:293-299 | an RLNM packet announces exactly the names it lists |
| Dispatch.RolesAnnounced | cpp/rlcore/relink_rlcore.cpp:341-359 | an RLPA packet announces exactly the roles it lists, of its source address |
| Dispatch.JoinsExactly | cpp/rlcore/relink_rlcore.cpp:387-392 | exactly the join bytes join, and only in relay mode |
| Dispatch.FramesForwarded | cpp/rlcore/relink_rlcore.cpp:393-410 | in relay mode every data frame is forwarded on its topic |
| Registry.AlwaysConsistent | cpp/rlcore/relink_rlcore.cpp:221-257 | in every reachable state `table` and `last_seen` hold the same pairs, no set is empty, every registered peer has a LAN address, the role tables share their keys, no relay group is empty |
| Registry.TablesFollowHistory | cpp/rlcore/relink_rlcore.cpp:221-257 | for every run with a monotone clock, once pruned every table says of every fact the latest word in the history, unless expired |
| Registry.RegisteredExactly | cpp/rlcore/relink_rlcore.cpp:221-237 | after pruning a peer is registered for a topic exactly when a request for it arrived within 3 seconds |
| Registry.RoleExactly | cpp/rlcore/relink_rlcore.cpp:238-245 | a role is kept exactly when announced within 3 seconds, with its last value |
| Registry.AckExactly | cpp/rlcore/relink_rlcore.cpp:457-478 | an acknowledgement lists, for the topics requested, exactly the other live registrants, with the LAN address each last reported |
| Registry.MutualDiscovery | cpp/rlcore/relink_rlcore.cpp:457-478 | two nodes registering a topic learn each other in either order, as soon as each request falls within the other's time to live |
| Registry.ListsExactly | cpp/rlcore/relink_rlcore.cpp:467-478 | and exactly then |
| Registry.NamesExactly | cpp/rlcore/relink_rlcore.cpp:300-319 | a name query is answered with exactly the topics with a live registrant, with the latest name or an empty one |
| Registry.RolesExactly | cpp/rlcore/relink_rlcore.cpp:360-365 | a role query is answered with exactly the live roles |
| Registry.ForwardsExactly | cpp/rlcore/relink_rlcore.cpp:387-410 | the merged relay forwards to exactly the other addresses that joined within 30 seconds |
| Registry.ForwardsOnce | cpp/rlcore/relink_rlcore.cpp:394-410 | and to each of them once |
| Rlcore.Daemon.PruneStale | cpp/rlcore/relink_rlcore.cpp:221-257 | the erase-while-iterating loops compute the pruned tables |
| Rlcore.Daemon.Receive | cpp/rlcore/relink_rlcore.cpp:283-502 | one turn of the main loop: the tables after it and everything it sends |
| Rlcore.Daemon.Acknowledge | cpp/rlcore/relink_rlcore.cpp:467-502 | the acknowledgement sent, sealed when a key is set, or none |
| Rlcore.AckComplete | cpp/rlcore/relink_rlcore.cpp:480-502 | a client learns the whole list exactly up to 4094 peers, or 4092 when sealed |
| Rlcore.NameAnswerExact | cpp/rlcore/relink_rlcore.cpp:300-337 | in every reachable state the answer's packets are at most 8192 bytes, all decode, and together list the live topics in order, once each, with their latest names |
| Rlcore.RoleAnswerExact | cpp/rlcore/relink_rlcore.cpp:360-376 | likewise for roles, in order of topic and address, once each |
| Rlcore.DiscoversOverTheWire | cpp/rlcore/relink_rlcore.cpp:419-502 | datagrams in, datagram out: the reply to a request within the time to live of another node's, opened and decoded, lists that node |
| Rlcore.NameQueryAnswered | cpp/rlcore/relink_rlcore.cpp:283-337 | an RLNQ datagram is answered to its source with RLNR packets that together list the live topics, once each, in order, with their latest names |
| Rlcore.RoleQueryAnswered | cpp/rlcore/relink_rlcore.cpp:340-376 | an RLPQ datagram likewise with RLPR packets and the live roles |
| Rlcore.FrameForwarded | cpp/rlcore/relink_rlcore.cpp:379-410 | a data frame goes, byte for byte, to exactly the other addresses whose join arrived within 30 seconds |
| Relay.Relay.HandlePacket | cpp/rlcore/relink_relay.cpp:73-109 | the member lists after a packet and everything it sends |
| Relay.RunHolds | cpp/rlcore/relink_relay.cpp:73-109 | between packets each list holds each address once, swept as of the last packet, and agrees with the history |
| Relay.ForwardsExactly | cpp/rlcore/relink_relay.cpp:86-109 | a frame goes, unchanged, to exactly the other addresses that joined at most 30 seconds before the packet preceding it |
| Relay.ReachesMembers | cpp/rlcore/relink_relay.cpp:86-109 | hence to all who joined within 30 seconds and to none who did not join |
| Relay.ForwardsOnce | cpp/rlcore/relink_relay.cpp:86-109 | and to nobody twice |
| Relay.LateCopy | cpp/rlcore/relink_relay.cpp:86-109 | a copy sent 100 seconds after the join |
| H264.ReadLoop | cpp/examples/ros2_compare/gst_h264_codec.hpp:209-240 | however the stream is cut into reads, the callbacks get the cut of the whole stream |
| H264.CutSpec | cpp/examples/ros2_compare/gst_h264_codec.hpp:209-240 | that cut joins to the stream from the first marker on, and a unit begins exactly at every marker |
| Transports.Node.DeclareTopic | cpp/include/relink/relink.hpp:967-1016 | refuses exactly re-pairing and unpairing, and then changes nothing |
| Transports.Node.EnsureStarted | cpp/include/relink/relink.hpp:1070-1101 | partitions the declared topics by transport, and every route agrees with it |
| Transports.DedicatedExactly | cpp/include/relink/relink.hpp:967-986 | a topic has a transport of its own or its pair's exactly when declared other than as an image topic |
| Transports.SharesPort | cpp/include/relink/relink.hpp:981-986 | two such topics share a port exactly when they share a pair id |
| Transports.PairIdStays | cpp/include/relink/relink.hpp:997-1016 | once set a pair id never changes |
| Transports.PairedExactly | cpp/include/relink/relink.hpp:997-1016 | a topic's pair id is that of an accepted pairing of it |
| Transports.RefusedExactly | cpp/include/relink/relink.hpp:997-1016 | a call is refused exactly when it would unpair a topic or pair it under another id |
| Transports.DeclaredExactly | cpp/include/relink/relink.hpp:323-336 | the declared topics are those of the calls not refused |
| Transports.MovesExactly | cpp/include/relink/relink.hpp:967-1016 | a topic's port changes exactly when, not paired yet, it is declared as paired, or plainly while it has no transport of its own |
| Transports.ImageTopicMoves | cpp/include/relink/relink.hpp:323-336 | a concrete image topic that is moved by a plain declaration |
| Transports.PortMoves | cpp/include/relink/relink.hpp:997-1016 | a concrete topic that is moved |
| Bitrate.Controller.NextQuality | cpp/include/relink/adaptive_bitrate.hpp:82-89 | the quality returned is in range and is the smoothed value rounded |
| Bitrate.Controller.BitrateScale | cpp/include/relink/adaptive_bitrate.hpp:104-114 | the loops drop what left the window and scale by the rest |
| Bitrate.Create | cpp/include/relink/adaptive_bitrate.hpp:60-69 | refuses exactly the configurations the constructor throws on |
| Bitrate.ClampNeverActs | cpp/include/relink/adaptive_bitrate.hpp:82-89 | the smoothed value is in range before it is clamped |
| Bitrate.AlwaysInRange | cpp/include/relink/adaptive_bitrate.hpp:82-89 | in every run quality stays between minimum and maximum |
| Bitrate.MotionExactly | cpp/include/relink/adaptive_bitrate.hpp:99-102 | maximum without motion, minimum from the ceiling on, in proportion in between |
| Bitrate.FrameExactly | cpp/include/relink/adaptive_bitrate.hpp:82-89 | what one frame does to quality and record |
| Bitrate.TrimmedExactly | cpp/include/relink/adaptive_bitrate.hpp:106-107 | exactly what is older than the window leaves |
| Bitrate.TotalOne | cpp/include/relink/adaptive_bitrate.hpp:108-109 | one sample counts its bytes |
| Bitrate.TotalAppend | cpp/include/relink/adaptive_bitrate.hpp:108-109 | the bytes of a record add up |
| Bitrate.Converges | cpp/include/relink/adaptive_bitrate.hpp:82-89 | over frames sharing a target the distance to it shrinks by the factor 1 - s each, clamp included |
| Bitrate.ScaleMeetsCeiling | cpp/include/relink/adaptive_bitrate.hpp:104-114 | scaling brings a rate above the ceiling exactly down to it |
| Bitrate.HeavierIsNotBetter | cpp/include/relink/adaptive_bitrate.hpp:82-114 | of two runs with the same calls, the one with more motion and more bytes never has the higher quality |

## Left out

- Sockets, threads, CPU pinning, timeouts and platform shims: packets are events, time is an input.
- Memory ordering: acquire and release are taken as sequentially consistent; the steps interleave freely.
- The shared-memory name space: unlinking, failed mappings, and attaching before the creator has sized the segment.
- ShmRing.Ring.TryPush: capacity is at least 1 and slot size does not overflow 32 bits; a zero capacity divides by zero in the code.
- Gcm.SealInto: input and output are separate; encrypting a buffer in place is not captured. The nonce is an input.
- Gcm.OpenInto: as for sealing, input and output are separate.
- Random key and nonce generation and the hexadecimal key text: no property to state.
- Reassembly.Reassembler.OnChunk: its precondition is that the code's unchecked copies stay inside the buffer; what happens beyond that is undefined in the code. `Reassembly.RunSafe` shows it of all chunks the encoders make.
- EndToEnd.Subscription.ReceiveAndDispatch: the same demand on the copies; the queue for non-frame packets is not modelled.
- The return value of publishing, frame id counters, and the default capture time.
- Registry.TablesFollowHistory: the clock is monotone; that live clients re-register in time is not assumed and not claimed, results speak of explicit gaps.
- Rlcore.Daemon.Receive: an answer is the sequence of datagrams handed to the socket; failing sends and log lines are left out.
- Relay.ForwardsExactly: the clock is monotone; the AF_XDP path calls the same handler and is left out.
- H264.ReadLoop: the GStreamer processes around it and the decoder.
- Topics first published after a node has started, and what runs on their transports.
- Bitrate.ScaleMeetsCeiling: for windows longer than zero; throughout, arithmetic is over the reals, without rounding or not-a-number.
- Message structs, schemas, examples, command-line tools, multicast discovery and its beacon, NAT punching, `ring_buffer.hpp`: fixed layouts or simple code that would only add easy members.
- The Python bindings: the same wire logic again.
