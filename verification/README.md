# Verified model of js-waku's protocol core

A Dafny 4.11 model of the parts of js-waku whose correctness spans several functions, with proofs of what they
promise. `dafny verify dfyconfig.toml` checks everything.

Code that changes things step by step is a class or a method with loops, proved against a function that says what the
result is; the theorems are lemmas about those functions. A thrown error is `None` or `Err`. Whatever comes from
outside (network answers, random numbers, cryptographic primitives, the order of events) is a parameter or an event,
so every statement holds for all of it.

| files | subject |
|---|---|
| `Common.dfy`, `Bits.dfy` | byte strings, `slice`, DataView numbers, bitwise operators |
| `Wire.dfy`, `WakuCodec.dfy`, `WakuRoundTrip.dfy` | WakuMessage with its nested RateLimitProof: writer, reader, round trip |
| `WakuProjection.dfy`, `FieldStreams.dfy`, `EncodedFields.dfy` | TopicOnlyMessage reads the topic the full decoder reads |
| `FetchNodes.dfy`, `FetchTheorems.dfy` | the two node-selection loops: guarantees, and exactly when they agree |
| `DialScheduler.dfy`, `DialRuns.dfy` | ConnectionManager's dialing under every interleaving of its asynchronous calls |
| `PeerLocks.dfy`, `PeerLockRuns.dfy` | PeerManager's locked connections |
| `StorePaging.dfy`, `StoreTheorems.dfy` | the Store query's cursor loop enumerates the log |
| `DnsSearch.dfy`, `DnsTheorems.dfy`, `DnsTermination.dfy` | the EIP-1459 descent: exactly when it ends, no repetition, reachability |
| `Envelope.dfy`, `EnvelopeRoundTrip.dfy`, `Ecies.dfy`, `EndToEnd.dfy` | payload envelope, ECIES and symmetric framing |
| `ShardCodec.dfy`, `ShardRoundTrip.dfy`, `Decimal.dfy`, `ShardTopics.dfy`, `DialGate.dfy` | shard records, topic names, and the dial gate built from both |
| `RelayObservers.dfy`, `RelayRuns.dfy`, `FilterDelivery.dfy` | who is called for an incoming message |
| `MultiaddrList.dfy` | the ENR multiaddrs list |

Where the code does not do what one would expect, the model follows the code and says exactly when the expectation
holds:

- `shouldDialPeer` is documented to refuse a peer with an active dial attempt. It refuses a peer exactly when an
  attempt has *ended*; until then the peer can be dialed twice at once.
- The two fetch loops agree unless a record turned down once is accepted under the same id later.
- A Store query stops early exactly after a page longer than 100 and shorter than the limit that is not the last. All
  queries over a log end exactly when its entries have hashes, all different.
- An envelope loses payloads of 2^24 bytes and more, and ECIES refuses its own encryption of the empty message.
- Shard records wrap numbers of 2^16 and more, and sort and de-duplicate lists of 64 and more.
- A connect event locks all connections of the peer, even more than are needed. Over the limit, a renewal then counts
  from the end of the spare connections and locks still more of them, unless they are no more than the surplus.
- Unsubscribing a filter stops delivery exactly when some peer's request resolved.
- A DNS search ends from every label exactly when no set of root entries leads only to itself.

## Model

| member | source | states |
|---|---|---|
| Wire.VarintReadBack | packages/proto/src/generated/message.ts:82-85 | a varint written anywhere in a buffer reads back as its number and ends exactly where it was written |
| Wire.VarintIsBase128 | packages/proto/src/generated/message.ts:167-170 | a varint is its number in groups of seven bits, the top bit set on all bytes but the last |
| Wire.TenGroupsAtMost | packages/proto/src/generated/message.ts:203-204 | ten bytes with the top bit set are refused |
| Wire.Varint64Length | packages/proto/src/generated/message.ts:172-175 | every 64-bit number fits the ten bytes a reader accepts |
| Wire.BytesReadBack | packages/proto/src/generated/message.ts:207-210 | a length-prefixed field reads back whole and the cursor stops at its last byte |
| Wire.Sint64ReadBack | packages/proto/src/generated/message.ts:219-222 | a signed 64-bit timestamp survives zigzag coding, minimum and maximum included |
| Wire.ZigZagByMagnitude | packages/proto/src/generated/message.ts:172-175 | signed numbers are numbered by magnitude, a negative one before the positive one |
| Wire.Reader.ReadRawVarint | packages/proto/src/generated/message.ts:203-204 | the byte loop of the reader yields the value and position of the recursive reading, and fails when it does |
| Wire.Reader.Skip | packages/proto/src/generated/topic_only_message.ts:47-50 | skipping by wire type, nested groups included, moves the cursor as specified or fails |
| Wire.Writer.Uint | packages/proto/src/generated/message.ts:167-170 | the emitting loop appends the varint of the number |
| Wire.Writer.Ldelim | packages/proto/src/generated/message.ts:26-29 | closing a fork puts the length of everything written since the fork in front of it and restores the outer output |
| WakuCodec.EncodeNestedProof | packages/proto/src/generated/message.ts:26-69 | the nested encoder writes the length of its own fields followed by those fields, and leaves outer forks alone |
| WakuCodec.EncodeWaku | packages/proto/src/generated/message.ts:152-195 | the encoder writes the parts of the message in order and leaves out defaults and absent optionals |
| WakuCodec.EncodeTopicOnly | packages/proto/src/generated/topic_only_message.ts:19-32 | a topic-only message is the topic field of a full message, or nothing |
| WakuCodec.ReadProof | packages/proto/src/generated/message.ts:69-122 | the nested decoding loop on a shared cursor equals the recursive decoding, up to where it leaves the cursor |
| WakuCodec.ReadWakuField | packages/proto/src/generated/message.ts:206-241 | one turn of the switch changes only its field and moves the cursor past the value |
| WakuCodec.DecodeWakuMessage | packages/proto/src/generated/message.ts:195-245 | the full decoding loop equals the recursive decoding, errors included |
| WakuCodec.DecodeTopicOnlyMessage | packages/proto/src/generated/topic_only_message.ts:32-55 | the reduced decoding loop equals its recursive decoding, errors included |
| WakuRoundTrip.ProofReadBack | packages/proto/src/generated/message.ts:80-119 | from any field on, the remaining written fields of a proof complete it and decoding stops at its end |
| WakuRoundTrip.NestedProofDecodes | packages/proto/src/generated/message.ts:227-232 | the length prefix of a nested proof delimits exactly its fields, whatever follows it in the buffer |
| WakuRoundTrip.WakuRoundTrips | packages/proto/src/generated/message.ts:152-245 | decode(encode(m)) = m for every message: absent and present optionals, empty payload, negative timestamps, nested proof |
| WakuProjection.DecodeProofNeedsEnd | packages/proto/src/generated/message.ts:80-82 | a nested decode whose end lies beyond the buffer always fails |
| WakuProjection.TypedFieldAdvances | packages/proto/src/generated/topic_only_message.ts:42-51 | on a field of its declared type, or a topic of any type, both decoders move equally far and agree on the topic, or both fail; all but the topic move as far as skipping would |
| WakuProjection.TopicOnlyIsProjection | packages/proto/src/generated/topic_only_message.ts:32-55 | on every buffer whose fields other than the topic have their declared wire types, truncated ones included, the reduced decoder succeeds exactly when the full one does and reads the same topic |
| WakuProjection.TypesNeeded | packages/proto/src/generated/message.ts:203-241 | per tag: both decoders pass the field equally far over all buffers if and only if its type is the declared one, it is the topic, or its number is unknown |
| WakuProjection.NestedAlikeExactly | packages/proto/src/generated/message.ts:227-232 | a nested proof of the declared type is passed equally far exactly when its length prefix delimits it |
| WakuProjection.MistypedFieldSplitsDecoders | packages/proto/src/generated/message.ts:215-218 | a buffer with one wrongly typed field on which the two decoders read different topics: the typing condition is needed |
| FieldStreams.SkipReadBack | packages/proto/src/generated/topic_only_message.ts:47-50 | skipping a serialized field of any kind, arbitrarily nested groups included, consumes exactly its bytes |
| FieldStreams.StreamTopic | packages/relay/src/relay.ts:239-254 | for any typed fields in any order, repeated or unknown, both decoders succeed and take the last topic field |
| FieldStreams.StreamMessage | packages/proto/src/generated/message.ts:195-245 | of every typed stream of fields, repeated or unknown ones included, the full decoder makes the message whose every part is what the last field of its number carries, with the default where there is none |
| FieldStreams.ProofStreamDecodes | packages/proto/src/generated/message.ts:80-119 | the same for a nested proof, up to exactly its end |
| FieldStreams.UnknownIgnored | packages/proto/src/generated/message.ts:236-239 | a field of unknown number, put in or taken out anywhere, changes nothing in the decoded message |
| FieldStreams.UnknownInProofIgnored | packages/proto/src/generated/message.ts:112-115 | the same inside a nested proof |
| FieldStreams.BrokenStreamRefused | packages/proto/src/generated/message.ts:207-210 | a stream that breaks off within a length-delimited field is refused as a whole |
| FieldStreams.NoSuchTypeRefused | packages/proto/src/generated/message.ts:236-239 | a wire type that does not exist, or the end of a group never begun, is refused |
| FieldStreams.BrokenGroupRefused | packages/proto/src/generated/message.ts:236-239 | a group that breaks off or holds a wire type that does not exist is refused: only its end tag ends a group |
| EncodedFields.EncodedMessageRouted | packages/relay/src/relay.ts:239-254 | relay reads from the bytes of every encoded message the topic the message was given |
| EncodedFields.MessageSerialized | packages/proto/src/generated/message.ts:152-195 | an encoded message is the stream of its fields, each under its declared number and wire type |
| EncodedFields.TopicOnlyRoundTrips | packages/proto/src/generated/topic_only_message.ts:19-55 | a topic-only message is written as a full message with nothing but the topic, and read back |
| FetchNodes.IsNewPeer | packages/discovery/src/dns/fetch_nodes.ts:123-133 | a record is new exactly when it has an id that no selected record has |
| FetchNodes.FetchNodesUntilCapabilitiesFulfilled | packages/discovery/src/dns/fetch_nodes.ts:11-57 | the batch loop returns the peers and call count of the specified run; the internal error is never thrown |
| FetchNodes.YieldNodesUntilCapabilitiesFulfilled | packages/discovery/src/dns/fetch_nodes.ts:64-109 | the generator, drained, yields the peers and makes the calls of the specified run; the internal error is never thrown |
| FetchTheorems.FetchGuarantees | packages/discovery/src/dns/fetch_nodes.ts:36-56 | calls bounded by the wanted sum plus tolerance, peers by the wanted slots, ids distinct, counts those of the returned records, and an early stop means at least the wanted number of returned peers advertise each capability |
| FetchTheorems.NothingUsefulLeftOut | packages/discovery/src/dns/fetch_nodes.ts:36-56 | the batch loop returns only records it was offered, and when it ends no offered record of another id advertises a capability still wanted |
| FetchTheorems.NothingUselessTaken | packages/discovery/src/dns/fetch_nodes.ts:36-56 | each returned record advertised, when taken, a capability of which more was wanted; the call that covers everything is the last |
| FetchTheorems.CountsAdvertising | packages/discovery/src/dns/fetch_nodes.ts:136-159 | the running counts are the numbers of selected records that advertise each capability |
| FetchTheorems.UselessStaysUseless | packages/discovery/src/dns/fetch_nodes.ts:171-181 | a record that does not help now never helps later in the run |
| FetchTheorems.BatchEqualsGenerator | packages/discovery/src/dns/fetch_nodes.ts:89-108 | both loops select the same peers in the same order if and only if the batch loop never accepts a record whose id it turned down before; then they make equally many calls |
| FetchTheorems.ConsistentSourcesAgree | packages/discovery/src/dns/fetch_nodes.ts:36-56 | with records that keep their capabilities the two loops always agree, in peers and calls |
| FetchTheorems.ChangingRecordSeparates | packages/discovery/src/dns/fetch_nodes.ts:94-102 | a node that first advertises nothing and then relay is selected by the batch loop only |
| DialScheduler.ConnectionManager.ShouldDialPeer | packages/core/src/lib/connection_manager/connection_manager.ts:570-643 | the check passes exactly for an unconnected peer whose stored shard bytes pass the topic test, that the bootstrap limit allows and that has no recorded attempt; it throws exactly when the bytes of an unconnected peer are missing from the store or undecodable |
| DialScheduler.ConnectionManager.AttemptDial | packages/core/src/lib/connection_manager/connection_manager.ts:480-489 | after a passed check the limit decides in one step between queueing and starting, and what each does to the fields |
| DialScheduler.ConnectionManager.DialFailed | packages/core/src/lib/connection_manager/connection_manager.ts:311-326 | a failed attempt is recorded under its number and the loop goes on or is left |
| DialScheduler.ConnectionManager.DialSucceeded | packages/core/src/lib/connection_manager/connection_manager.ts:294-310 | a successful dial records -1 and leaves the loop |
| DialScheduler.ConnectionManager.LeaveLoop | packages/core/src/lib/connection_manager/connection_manager.ts:328-330 | leaving lowers the count and takes at most the first queued peer, only below the limit |
| DialRuns.StepKeepsInv | packages/core/src/lib/connection_manager/connection_manager.ts:434-445 | every step keeps the accounting of counts, queue and recorded attempts |
| DialRuns.SchedulerSafe | packages/core/src/lib/connection_manager/connection_manager.ts:480-489 | in every interleaving: count equals dials in flight and respects the limit, passes equal starts plus enqueues plus waiting, the queue is first in first out, and no dial exceeds its attempts |
| DialRuns.CapacityUsed | packages/core/src/lib/connection_manager/connection_manager.ts:434-445 | in every reachable state a passed check is queued exactly when the limit of dials is in flight, a dial that leaves its loop takes the head of a non-empty queue, and a failure below the maximum is tried again at once |
| DialRuns.FailureOutcome | packages/core/src/lib/connection_manager/connection_manager.ts:311-330 | a failed attempt is recorded under its number; below the maximum the dial awaits its next attempt and nothing else changes, at it the dial leaves |
| DialRuns.SuccessOutcome | packages/core/src/lib/connection_manager/connection_manager.ts:294-310 | a successful dial is recorded as such and leaves its loop |
| DialRuns.HasBeenDialedExactly | packages/core/src/lib/connection_manager/connection_manager.ts:570-694 | in every reachable state a peer passes the check exactly when it is not connected, its stored shard bytes are absent or readable with a shard among the node topics, fewer bootstrap connections than allowed exist if it is a bootstrap peer, and no attempt of it has ended |
| DialRuns.BootstrapDecides | packages/core/src/lib/connection_manager/connection_manager.ts:618-637 | a bootstrap peer passes only below the limit; below it tags change no answer, and without the tag neither limit nor connections do |
| DialRuns.PublishedShardsDecide | packages/core/src/lib/connection_manager/connection_manager.ts:570-612 | in every run of a statically configured node a peer that published its shards passes the check exactly when the clusters agree, a shard is common, it is not connected, the bootstrap limit allows it and no attempt of it has ended |
| DialRuns.NeverDialedAgain | packages/core/src/lib/connection_manager/connection_manager.ts:603-611 | once a dial of a peer has left its attempt loop no later check of that peer passes |
| DialRuns.TwoDialsOfOnePeer | packages/core/src/lib/connection_manager/connection_manager.ts:562-569 | a run in which one peer is dialed twice at once, against the documented condition 4 |
| StorePaging.CursorContinues | packages/core/src/lib/store/store.ts:119-125 | the cursor taken from a page makes the next query continue exactly behind that page, in both directions |
| StorePaging.QueryPerPage | packages/core/src/lib/store/store.ts:52-134 | whenever the loop ends, over any log, faults and page size per request, its results are those of its specified turns, and it yields for each entry of its pages the message exactly when there is one whose topic has a decoder |
| StoreTheorems.QueryIsRun | packages/core/src/lib/store/store.ts:52-134 | over a log with distinct hashes the loop always ends and works off exactly what lies ahead of the cursor; an unknown cursor is the server's error |
| StoreTheorems.RunningUntilLastRequest | packages/core/src/lib/store/store.ts:52-134 | without faults the loop is still running after n turns exactly when its run makes more than n requests |
| StoreTheorems.QueriesEndExactly | packages/core/src/lib/store/store.ts:119-125 | every query ends, however pages are sized and whatever fails, if and only if all entries have hashes and no two the same |
| StoreTheorems.RunEnumerates | packages/core/src/lib/store/store.ts:127-133 | for page sizes chosen anew per request, pages put together are exactly what lies ahead of the cursor if and only if no page but the last is longer than the maximum and shorter than the limit |
| StoreTheorems.FixedSizeTruncates | packages/core/src/lib/store/store.ts:127-133 | with one page size the loop stops early exactly when that size is above the maximum, below the limit, and entries are left after the first page |
| StoreTheorems.QueryIsComplete | packages/core/src/lib/store/store.ts:52-134 | pages of 1 to 100 entries, each of its own size, enumerate everything after or before the cursor, once each, and one more request ends the loop |
| StoreTheorems.RequestCount | packages/core/src/lib/store/store.ts:52-134 | pages of one size p up to 100 take ceil(n/p)+1 requests |
| StoreTheorems.ConsumerGetsAll | packages/core/src/lib/store/store.ts:99-117 | what the consumer gets, in log order, is one slot for each entry ahead of the cursor, holding its message exactly when its topic is not empty and has a decoder |
| StoreTheorems.QueryNeedNotEnd | packages/core/src/lib/store/store.ts:119-125 | a log with a repeated hash and one with a missing hash on which the loop asks forever |
| StoreTheorems.FaultsCutOff | packages/core/src/lib/store/store.ts:59-89 | the first fault ends the query after exactly the pages before it; it throws exactly for an error status |
| DnsSearch.StepDescends | packages/discovery/src/dns/dns.ts:102-140 | every recursive call visits a new label or follows a root entry to a lower one |
| DnsSearch.SearchFrom | packages/discovery/src/dns/dns.ts:102-140 | a search from any label ends although branches may form cycles |
| DnsSearch.DnsNodeDiscovery.GetTXTRecord | packages/discovery/src/dns/dns.ts:148-174 | a cached record is returned without a query; otherwise one query is made and a result is cached |
| DnsSearch.DnsNodeDiscovery.SelectRandomPath | packages/discovery/src/dns/dns.ts:194-215 | fails exactly when all labels are visited; otherwise draws until the first label not visited |
| DnsSearch.DnsNodeDiscovery.Search | packages/discovery/src/dns/dns.ts:102-140 | the recursive method ends and leaves cache, visits and result of the specified search |
| DnsTheorems.NoLabelChosenTwice | packages/discovery/src/dns/dns.ts:194-206 | over any number of searches sharing a context no branch chooses a label retrieved before, and visits are exactly the retrieved labels |
| DnsTheorems.ReturnedRecordReachable | packages/discovery/src/dns/dns.ts:113-124 | a returned record hangs below the starting label along cached root and branch entries; the cache only grows |
| DnsTheorems.CachedSearchAsksNothing | packages/discovery/src/dns/dns.ts:148-174 | a search over cached labels makes no query and leaves the cache as it is |
| DnsTheorems.UncachedStep | packages/discovery/src/dns/dns.ts:102-174 | a label that is not cached is asked for once; the answer is kept, and a failure ends the search without a visit |
| DnsTheorems.FirstSearchSucceeds | packages/discovery/src/dns/dns.ts:102-140 | the first search of a context over a tree without cycles, in which everything resolves and parses, returns a record whatever is drawn |
| DnsTermination.SearchIsCalls | packages/discovery/src/dns/dns.ts:102-140 | the finitely many calls that follow one another from a label end in what the search returns |
| DnsTermination.RankRoots | packages/discovery/src/dns/dns.ts:116-118 | the labels of a tree without a cycle of root entries can be ranked so that roots lead downwards |
| DnsTermination.EndsExactly | packages/discovery/src/dns/dns.ts:102-140 | with a reliable resolver every search ends if and only if no non-empty set of labels has only root entries leading back into it; exactly then labels can be ranked; branch cycles do no harm |
| DnsTermination.RootCycleNeverEnds | packages/discovery/src/dns/dns.ts:116-118 | from a label of a cycle of root entries, cached or resolvable, the calls stay in the cycle forever |
| DnsTermination.CyclicTrees | packages/discovery/src/dns/dns.ts:116-124 | two roots that lead to each other are walked forever; two branches that lead to each other are not |
| DnsTermination.RootAtDomainOnly | packages/discovery/src/dns/dns.ts:116-118 | a tree with its root entry at the domain only, not pointing back, satisfies what termination needs |
| Envelope.ComputeSizeOfPayloadSizeField | packages/message-encryption/src/encryption.ts:130-136 | the real-division loop counts the base-256 digits of the length |
| Envelope.PreCipherMessage | packages/message-encryption/src/encryption.ts:178-213 | the buffer-building steps give the specified envelope, or fail on invalid padding |
| EnvelopeRoundTrip.ShortIsRecovered | packages/message-encryption/src/encryption.ts:225-246 | below 2^24 bytes opening gives the payload and, if signed, the signature over the bytes before it |
| EnvelopeRoundTrip.EnvelopeRoundTrips | packages/message-encryption/src/encryption.ts:178-246 | the payload comes back if and only if it is shorter than 2^24 bytes |
| EnvelopeRoundTrip.SignatureReported | packages/message-encryption/src/encryption.ts:149-158 | a signature is reported exactly when a key was given, and the hashed bytes are exactly the signed ones |
| EnvelopeRoundTrip.WholeBlocks | packages/message-encryption/src/encryption.ts:186-198 | the envelope length is a multiple of 256 with 1 to 256 bytes of padding |
| EnvelopeRoundTrip.EnvelopeBytes | packages/message-encryption/src/encryption.ts:178-213 | the envelope byte by byte: flags, little-endian length, payload, padding, and the signature of the hash of all before it |
| EnvelopeRoundTrip.PaddingExactly | packages/message-encryption/src/encryption.ts:186-198 | padding is refused exactly when it does not fill the last block of 256, or has more than three bytes, all zero |
| EnvelopeRoundTrip.OpenedBytes | packages/message-encryption/src/encryption.ts:225-246 | what opening makes of any message with a length field: payload, and with the flag the last 65 bytes as the signature of the hash of what precedes them |
| EnvelopeRoundTrip.NothingOpened | packages/message-encryption/src/encryption.ts:225-230 | opening gives nothing exactly without a length field, and throws exactly on no bytes at all |
| EnvelopeRoundTrip.SizeFieldIsDigitCount | packages/message-encryption/src/encryption.ts:130-136 | the size field is as long as the length has base-256 digits |
| Ecies.Kdf | packages/message-encryption/src/crypto/ecies.ts:8-32 | the counter loop yields the specified hash blocks |
| Ecies.KdfLength | packages/message-encryption/src/crypto/ecies.ts:8-32 | the key material covers the requested length and overshoots by less than one block |
| Ecies.KdfBlockAt | packages/message-encryption/src/crypto/ecies.ts:8-32 | block i of the key material hashes the big-endian number i + 1 and the secret |
| EndToEnd.EciesRoundTrips | packages/message-encryption/src/crypto/ecies.ts:124-194 | decrypting an encrypted message gives it back for every message but the empty one, which is refused as too small |
| EndToEnd.WrongMacRefused | packages/message-encryption/src/crypto/ecies.ts:164-193 | any well-formed frame is accepted exactly with the MAC computed from the secret the receiver shares with the ephemeral key, and deciphered with the first half of its hash |
| EndToEnd.EncryptedFrame | packages/message-encryption/src/crypto/ecies.ts:124-151 | what is sent, in the primitives alone: ephemeral key, iv, message encrypted under the first half of the hash of counter 1 and the shared secret, and the MAC under the hash of the second half |
| EndToEnd.OthersRefuse | packages/message-encryption/src/crypto/ecies.ts:164-193 | the holder of another key refuses a message exactly when the keys the two derive give different MACs |
| EndToEnd.MalformedRefused | packages/message-encryption/src/crypto/ecies.ts:164-176 | frames of at most 113 bytes, frames that do not begin with 4, and private keys of other than 32 bytes are refused, in this order |
| EndToEnd.BadKeysRefused | packages/message-encryption/src/crypto/ecies.ts:96-113 | encryption fails exactly for an ephemeral key of other than 32 bytes or a public key that is not 65 bytes beginning with 4 |
| EndToEnd.SymmetricFrame | packages/message-encryption/src/encryption.ts:98-111 | whatever precedes the last twelve bytes of a frame is deciphered with those as iv |
| EndToEnd.SymmetricRoundTrips | packages/message-encryption/src/encryption.ts:82-111 | symmetric framing is undone by its receiver |
| EndToEnd.AsymmetricEndToEnd | packages/message-encryption/src/encryption.ts:53-71 | payload to ECIES wire and back is the identity exactly below 2^24 bytes, and then the signature and its key arrive as sent; the length check never refuses an envelope |
| EndToEnd.SymmetricEndToEnd | packages/message-encryption/src/encryption.ts:82-111 | the same for symmetric encryption |
| ShardCodec.WithBit | packages/utils/src/common/relay_shard_codec.ts:47-49 | or-ing a one-bit mask into a byte sets that bit and no other |
| ShardCodec.EncodeRelayShard | packages/utils/src/common/relay_shard_codec.ts:36-60 | the buffer-writing loops give the specified record or the out-of-bounds error |
| ShardCodec.DecodeRelayShard | packages/utils/src/common/relay_shard_codec.ts:3-34 | the reading loops give the specified shards or one of the two errors |
| ShardRoundTrip.IndexListDecodes | packages/utils/src/common/relay_shard_codec.ts:51-57 | an index list has odd length, so is never taken for a bit vector, and decodes to the list as 16-bit numbers |
| ShardRoundTrip.BitVectorDecodes | packages/utils/src/common/relay_shard_codec.ts:44-50 | 64 or more shards encode exactly if all are below 1024, and decode to the increasing list of exactly their set |
| ShardRoundTrip.DecodeFailsExactly | packages/utils/src/common/relay_shard_codec.ts:8-31 | decoding fails exactly below three bytes and on index lists shorter than announced |
| ShardRoundTrip.IndexListBytes | packages/utils/src/common/relay_shard_codec.ts:51-57 | the bytes of an index list: cluster, count and indices, big endian |
| ShardRoundTrip.BitVectorBytes | packages/utils/src/common/relay_shard_codec.ts:44-50 | the bytes of a bit vector: cluster and 1024 bits, the highest of each byte first, set exactly for the shards |
| ShardRoundTrip.DecodedExactly | packages/utils/src/common/relay_shard_codec.ts:3-34 | what decoding makes of any bytes: 130 of them are a vector read in increasing order, others the announced number of indices |
| ShardRoundTrip.RoundTripExactly | packages/utils/src/common/relay_shard_codec.ts:3-60 | decode(encode(x)) = x if and only if the numbers fit and a bit-vector list is increasing |
| Decimal.ParsePrinted | packages/utils/src/common/sharding/index.ts:119-120 | parsing what a whole number prints as gives the number, sign included |
| Decimal.ParseAmongOthers | packages/utils/src/common/sharding/index.ts:119-120 | white space in front and what follows the digits do not change the number read |
| ShardTopics.TopicParses | packages/utils/src/common/sharding/index.ts:106-129 | parsing the printed topic gives back cluster and shard |
| ShardTopics.ParsesExactly | packages/utils/src/common/sharding/index.ts:106-129 | a topic parses exactly if it is any first part, /waku/2/rs/, and two parts that parse as numbers |
| ShardTopics.SingleShardRoundTrips | packages/utils/src/common/sharding/index.ts:42-48 | the topic of a single shard parses back to it, with the default cluster when none is given |
| ShardTopics.DefaultCluster | packages/utils/src/common/sharding/index.ts:82-92 | topics without a cluster are those of cluster 1 |
| ShardTopics.TopicInjective | packages/utils/src/common/sharding/index.ts:82-92 | two topics are equal exactly when cluster and shard are |
| ShardTopics.PubsubTopicsToShardInfo | packages/utils/src/common/sharding/index.ts:131-162 | collecting through tag strings gives one cluster and its shards at first occurrence, or the error of the first bad topic, no topics, or mixed clusters |
| ShardTopics.CollectedExactly | packages/utils/src/common/sharding/index.ts:131-162 | topics that all parse are refused if there are none or they differ in cluster, and otherwise give their cluster and distinct shards |
| ShardTopics.BadTopicRefused | packages/utils/src/common/sharding/index.ts:137-141 | the first topic that does not parse decides the error |
| ShardTopics.TopicsRoundTrip | packages/utils/src/common/sharding/index.ts:82-162 | collecting the printed topics of a shard list gives the cluster and the list without repetitions; an empty list is the error |
| DialGate.TopicsMeet | packages/core/src/lib/connection_manager/connection_manager.ts:678-683 | two static configurations share a topic exactly when they share the cluster and a shard |
| DialGate.GateExact | packages/core/src/lib/connection_manager/connection_manager.ts:669-694 | on stored shard bytes of either format the topic test is true exactly when the clusters agree and a shard is common |
| PeerLocks.PeerManager.RequestRenew | packages/sdk/src/peer_manager/peer_manager.ts:44-76 | tags in place exactly the first needed unlocked connections of other peers and returns the first of them |
| PeerLocks.PeerManager.LockPeerIfNeeded | packages/sdk/src/peer_manager/peer_manager.ts:98-109 | tags in place all unlocked open connections of the peer unless the limit is reached |
| PeerLockRuns.CountAfterLocking | packages/sdk/src/peer_manager/peer_manager.ts:123-129 | locking k candidates raises the number of locked open connections by exactly k |
| PeerLockRuns.LockedCountIs | packages/sdk/src/peer_manager/peer_manager.ts:111-121 | the count is that of the open connections that bear the tag |
| PeerLockRuns.ConnectTags | packages/sdk/src/peer_manager/peer_manager.ts:98-109 | a connect event puts the tag behind the own tags of exactly the open untagged connections of the peer, and changes nothing else |
| PeerLockRuns.RenewTags | packages/sdk/src/peer_manager/peer_manager.ts:54-60 | a renewal puts the tag behind the own tags of the foremost open untagged connections of other peers, and changes nothing else |
| PeerLockRuns.TagsOnlyGrow | packages/sdk/src/peer_manager/peer_manager.ts:123-129 | in every run a connection that is not removed keeps its peer and all its tags, in order |
| PeerLockRuns.RenewSparesPeer | packages/sdk/src/peer_manager/peer_manager.ts:54-60 | a renewal never touches a connection to the given peer, whatever is locked |
| PeerLockRuns.RenewFillsUp | packages/sdk/src/peer_manager/peer_manager.ts:44-60 | up to the limit a renewal keeps it and reaches it or leaves only that peer unlocked; over the limit it locks as many candidates as exceed the surplus, so none exactly when they do not |
| PeerLockRuns.RenewalOverLimit | packages/sdk/src/peer_manager/peer_manager.ts:57 | with a limit of one, two locked and two spare connections a renewal locks a third |
| PeerLockRuns.ConnectLocksAll | packages/sdk/src/peer_manager/peer_manager.ts:98-109 | a connect event keeps the limit exactly when the limit is reached already or the peer has no more unlocked connections than needed |
| PeerLockRuns.LimitKept | packages/sdk/src/peer_manager/peer_manager.ts:88-109 | in every run with at most one open connection per peer at most numPeersToUse are locked |
| PeerLockRuns.TwoConnectionsExceed | packages/sdk/src/peer_manager/peer_manager.ts:106-108 | two connections to one peer let one connect event exceed the limit |
| RelayObservers.Relay.SubscribeWithUnsubscribe | packages/relay/src/relay.ts:168-189 | one new observer per decoder is filed under its topics, after those already there |
| RelayObservers.Relay.RemoveObservers | packages/relay/src/relay.ts:193-208 | the observers of the handle are taken out where they are filed |
| RelayObservers.Relay.ObserversOf | packages/relay/src/relay.ts:235-264 | the observers called for a buffer are those filed under the topic the reduced decoder reads, none without one |
| RelayRuns.IndexIsLive | packages/relay/src/relay.ts:168-208 | after any subscribes and cancels the index holds for each topic exactly the observers not cancelled, in order; cancelling again changes nothing |
| RelayRuns.FoundExactly | packages/relay/src/relay.ts:168-208 | an observer is found on a topic exactly when a subscribe call gave its decoder for that topic with its callback and no later call cancelled it |
| RelayRuns.RoutedByFullTopic | packages/relay/src/relay.ts:235-264 | the observers called for a well-typed message are exactly the uncancelled ones on the topic its own full decoding yields, none when it fails or has no topic |
| FilterDelivery.SubscriptionMonitor.NotifyMessageReceived | packages/sdk/src/filter/subscription_monitor.ts:127-143 | reports whether the hash arrived before and remembers peer and hash |
| FilterDelivery.GroupByContentTopic | packages/utils/src/common/group_by.ts:1-14 | one group per content topic, in order of first occurrence, each with exactly the decoders of its topic in order |
| FilterDelivery.Subscription.Subscribe | packages/sdk/src/filter/subscription.ts:59-124 | a decoder for another pubsub topic changes nothing; otherwise exactly the decoders' topics, except the reserved one, get their decoders and the callback in place of what they had |
| FilterDelivery.Subscription.Unsubscribe | packages/sdk/src/filter/subscription.ts:126-152 | the topics are removed exactly when some peer's request resolved |
| FilterDelivery.Subscription.UnsubscribeAll | packages/sdk/src/filter/subscription.ts:162-177 | all callbacks are removed whatever the requests bring, and the result is that of handleResult |
| FilterDelivery.Subscription.HandleResult | packages/sdk/src/filter/subscription.ts:208-229 | rejected requests and failing responses become failures, the others successes, in order |
| FilterDelivery.HandledComplete | packages/sdk/src/filter/subscription.ts:208-229 | every request is accounted for once; there are no failures exactly when all succeeded, and the successes are the peers that succeeded |
| FilterDelivery.HandledInOrder | packages/sdk/src/filter/subscription.ts:208-229 | each request adds its outcome behind those of the requests before it |
| FilterDelivery.Subscription.ProcessIncomingMessage | packages/sdk/src/filter/subscription.ts:179-206 | which callback is called, and that the hash is remembered even when none is |
| FilterDelivery.HandedExactly | packages/sdk/src/filter/subscription.ts:179-206 | in every run an arrival reaches a callback exactly when it is the first of its hash, its topic is registered then and a decoder stored with the topic accepts it; and it is the callback set last |
| FilterDelivery.DeliveredExactly | packages/sdk/src/filter/subscription.ts:59-206 | in terms of the calls made: a push reaches a callback exactly when it is the first of its hash and some subscribe call gave that callback with an accepting decoder on its topic, and no later call replaced or removed it |
| FilterDelivery.AtMostOncePerHash | packages/sdk/src/filter/subscription_monitor.ts:136-142 | however many peers push a message at most one arrival is handed over |
| FilterDelivery.UnsubscribeNeedsAnAnswer | packages/sdk/src/filter/subscription.ts:126-152 | after unsubscribing from a topic and leaving it alone, the next new message on it that a decoder accepts still reaches the callback set before exactly when no request resolved |
| MultiaddrList.EncodeMultiaddrs | packages/enr/src/multiaddrs_codec.ts:28-50 | the encoder fills exactly its preallocated buffer, or refuses an address with a peer id |
| MultiaddrList.DecodeMultiaddrs | packages/enr/src/multiaddrs_codec.ts:6-26 | the decoding loop ends on every input with the specified addresses or error |
| MultiaddrList.ChunksConcat | packages/enr/src/multiaddrs_codec.ts:36-47 | encoding distributes over list concatenation |
| MultiaddrList.ChunkBytes | packages/enr/src/multiaddrs_codec.ts:39-47 | each address stands behind its big-endian 16-bit length |
| MultiaddrList.TailDecodes | packages/enr/src/multiaddrs_codec.ts:6-26 | what decoding makes of anything behind a list: a lone byte is an error, an announced address may come out short, and one that does not parse is an error |
| MultiaddrList.RoundTripExactly | packages/enr/src/multiaddrs_codec.ts:6-50 | encoding refuses exactly lists with a peer id; for others decode(encode(xs)) = xs if and only if every address is shorter than 2^16 bytes |

## Left out

- WakuRoundTrip.WakuRoundTrips: byte fields of 2^32 bytes and more, which no JavaScript buffer reaches, are excluded.
- WakuProjection.TopicOnlyIsProjection: the condition is exact for each field (TypesNeeded, NestedAlikeExactly) but not for whole buffers, where after parting on one field both decoders can meet again by coincidence.
- StorePaging.QueryPerPage: speaks of queries that end; StoreTheorems.QueriesEndExactly says over which logs all of them do. A server that resolves a cursor finds the first entry with its hash. The comparison of content topics with decoder keys and the request's own validation are not modelled.
- DnsSearch.SearchFrom: assumes that every index keeps being drawn, which random numbers do with probability 1 and DnsTermination.SweepIsFair shows possible; `getPeers` choosing among several trees is not modelled.
- DialRuns.SchedulerSafe: does not claim that the queue drains; a peer is taken only when a dial ends and may then be refused, so the rest can wait forever. Direct public calls of `dialPeer` bypass the limit and are not modelled.
- DialRuns.HasBeenDialedExactly: the facts `shouldDialPeer` reads at earlier awaits are inputs of the step that reads the attempt map.
- Decimal.ParsePrinted: numbers are unbounded here; from 2^53 on JavaScript rounds them.
- PeerLockRuns.LimitKept: connection events are steps of the environment; no second open connection to a peer is assumed.
- MultiaddrList.RoundTripExactly: parsing of a single multiaddr and its peer id are abstract.
- protons-runtime and uint8arrays are not part of this model; the reader and writer follow the Protocol Buffers encoding, with varints of at most ten bytes also where they are skipped. Size limits in decode options are not modelled.
- UTF-8 decoding: topics are the bytes of their encoding.
- Cryptographic primitives, key recovery and random sources are abstract functions with the stated laws.
- Autosharding (content topics hashed to shards), network-config validation and the grouping of content topics: they add a hash to the topic functions modelled here.
- Deletion of undialable peers from the peer store, dial error bookkeeping, the DNS fallback, keep-alive and connection tagging by discovery source.
- Dropping connections when there are too many bootstrap peers, network-status events, and event dispatch.
- Relay publishing, message validation, decoding by observers and their callbacks; iterators over subscriptions.
- Filter pings, keep-alive, resubscription on connection changes, and the pushing of the reserved decoder onto a caller's array.
- TXT record concatenation, signature verification of root entries and ENR decoding are behind parsed entries.
- The other generated protobuf codecs, which have the same shape.
