# Bamboo node core in Dafny

This project models the core of the Bamboo cryptocurrency node:

- how a node follows its peers' header chains (`HeaderChain`);
- how it picks, admits and samples peers and derives the network time (`HostManager`);
- the binary transaction record and the transaction's hash, JSON and equality rules (`Transaction`);
- the HTTP bodies it reads and writes for headers, blocks, transactions and block counts (`Api`);
- the key-value layout of the block store (`BlockStore`);
- the sample NFT contract's `executeBlock` (`SimpleNft`).

Everything is pure functions over immutable datatypes.
- The key-value database is a `map<seq<byte>, Value>`.
- A peer's HTTP answer is an `Option` passed in as a parameter.
- The clock (`now`) is a parameter.
- Hashing, signatures, proof-of-work checks and work accumulation are function-valued fields of small records (`Crypto`, `TxCrypto`), so every property holds for every choice of them.

C++ integer conversions and division are written out where the core uses them:
- `Types.Wrap64` is `uint64_t` wrap-around.
- `Types.ToInt32` is the narrowing to `int32_t`. The model also uses it for a signed `int` sum that overflows, which C++ leaves undefined (see "Left out").
- `Types.CDiv` is division that truncates toward zero.

`std::map`/`std::set` iteration order is lexicographic. It is modelled by `LexOrder.SortedStrings`, which enumerates a set of strings in ascending order.

Helper modules:
- `Types`: bytes, fixed-width integers, big- and little-endian codecs.
- `Wrappers`: `Option` and `Result`.
- `Decimal`: decimal text.
- `LexOrder`: lexicographic order.
- `Sorting`: insertion sort by key.
- `Blocks`: block headers and blocks. `block.hpp` is not part of this model, so the header codec is a parameter. The codec is assumed to write a fixed, positive number of bytes for every header. It is also assumed to invert its encode for every header the fixed-width C++ struct can hold (`Blocks.Representable`: the remaining fields have the struct's width). `Blocks.ExampleCodecValid` builds a codec that meets these assumptions, so they are not vacuous.

## Model

| member | source | states |
|---|---|---|
| HeaderChain.New | src/core/header_chain.cpp:30-41 | a new chain follows the given host with the given checkpoints and banned hashes, holds no hashes, no work and length 0, is not failed and has not yet tried the block store cache |
| HeaderChain.Reset | src/core/header_chain.cpp:48-54 | reset empties the hashes, zeroes work, length and offset, clears `failed` and keeps the host and its settings |
| HeaderChain.ValidIffReportedWork | src/core/header_chain.cpp:56-67 | `valid()` holds exactly when `getTotalWork()` reports some work |
| HeaderChain.UnreachableReportsNothing | src/core/header_chain.cpp:64-82 | a load whose block count request fails marks the chain failed: it keeps its hashes but reports no work and no length and is not valid |
| HeaderChain.GetHashAfterLoad | src/core/header_chain.cpp:43-46 | after a load that accepts every fetched header, `getHash` answers each earlier hash and each fetched header's hash at its height, but answers NULL at the newest height even though that hash is held |
| HeaderChain.Check | src/core/header_chain.cpp:102-126 | a header is accepted exactly when its hash is not the banned hash for its id, matches the checkpoint for its id if there is one, its nonce verifies and it links to the previous hash |
| HeaderChain.BatchRanges | src/core/header_chain.cpp:93-95 | the download ranges start right after the held hashes, are consecutive, each spans at most BLOCK_HEADERS_PER_FETCH ids, and the last ends at the target; there are none when nothing is missing |
| HeaderChain.ApplyHeadersSpec | src/core/header_chain.cpp:99-133 | applying a batch yields the chain extended by every header's hash and work exactly when every header passes its check against the hash before it, and fails otherwise |
| HeaderChain.LoadBatchesSpec | src/core/header_chain.cpp:93-149 | the batch loop succeeds with the chain extended by all received headers exactly when every batch was received and every header passes; otherwise it fails |
| HeaderChain.Load | src/core/header_chain.cpp:77-82 | an unreachable block count marks the chain failed and changes nothing else; no outcome alters the host or its settings |
| HeaderChain.LoadOutcome | src/core/header_chain.cpp:77-154 | load ends either extended by every fetched header with `failed` cleared, or reset |
| HeaderChain.RejectedHeaderWipes | src/core/header_chain.cpp:134-139 | one rejected header anywhere in the fetched range wipes the chain: no hashes, no work, length 0, not valid, and `getTotalWork` and `getChainLength` report 0 |
| HeaderChain.ThrowingBatchWipes | src/core/header_chain.cpp:140-148 | a batch whose request throws resets the chain |
| HeaderChain.NothingToFetch | src/core/header_chain.cpp:93-150 | when the peer has no more blocks than the chain holds, load only clears `failed` |
| HeaderChain.LoadKeepsLength | src/core/header_chain.cpp:127-132 | load keeps the chain length equal to the number of held hashes |
| HeaderChain.LoadWorkMonotone | src/core/header_chain.cpp:129-132 | when adding work never decreases it, load either resets the chain or leaves at least the old work, and strictly more when it added hashes and work strictly increases |
| HeaderChain.LoadAppendOnly | src/core/header_chain.cpp:127-128 | load never rewrites held hashes: the result is empty or extends the old hashes |
| HeaderChain.AllAcceptedAppend | src/core/header_chain.cpp:123-127 | a run of headers passes exactly when its first part passes and the rest passes against the chain extended by that part |
| HeaderChain.WorkFoldAppend | src/core/header_chain.cpp:129 | accumulating work over two runs equals accumulating over their concatenation |
| HeaderChain.StoredBlock | src/core/header_chain.cpp:15-16 | the 64-bit loop counter passed to `getBlock` is narrowed to `uint32_t`, and ids below 2^32 pass unchanged |
| HeaderChain.StoredHashes | src/core/header_chain.cpp:15-17 | the hashes read are those of stored blocks i..count in order, and reading fails exactly when one of those blocks cannot be read |
| HeaderChain.ReadStore | src/core/header_chain.cpp:14-18 | the warm start reads as many hashes as the stored count and takes the stored work; a missing or corrupt count or work fails the read |
| HeaderChain.WarmStart | src/core/header_chain.cpp:13-20 | the warm start succeeds exactly when the store reads succeed; it then appends the stored hashes, takes the stored work and count, marks the cache tried and keeps the host and its settings |
| HeaderChain.FillStoreStores | src/server/block_store.cpp:198-243 | after blocks numbered 1..n are written with `setBlock` one after another, every one of them is stored |
| HeaderChain.FilledStoreReads | src/core/header_chain.cpp:14-18 | in such a store with the count and work then written, the count, the work and every block read back |
| HeaderChain.FilledStoreBlocks | src/core/header_chain.cpp:15-16 | in that store `getBlock(k)` reads back block k with its header, for every k from 1 to n |
| HeaderChain.WarmStartFromFilledStore | src/core/header_chain.cpp:13-20 | a chain warm-started from that store holds its earlier hashes followed by the stored blocks' hashes in order, with the stored work and length n |
| HeaderChain.SyncStep | src/core/header_chain.cpp:12-24 | one round of the sync loop warms up from the block store exactly once, and only that round can fail on a store read; otherwise it only loads |
| HeaderChain.WarmStartThenLoad | src/core/header_chain.cpp:11-27 | a fresh chain with a block store fails its first round exactly when the store read fails; otherwise it keeps its length equal to its hashes and either resets or keeps the cached hashes as a prefix |
| Transaction.GetProgramId | src/core/transaction.cpp:135-138 | the program id is available exactly for layer-2 and program-creation transactions |
| Transaction.GetData | src/core/transaction.cpp:140-143 | the payload is available exactly for layer-2 transactions |
| Transaction.ClassesExclusive | src/core/transaction.cpp:127-133 | no transaction is both layer 2 and a program creation |
| Transaction.NewTransfer | src/core/transaction.cpp:48-70 | a transfer carries the given parties, amount, fee, key and time, no program and a zero payload, and is not a fee |
| Transaction.NewLayer2 | src/core/transaction.cpp:72-82 | a layer-2 transaction is classified layer 2 and hands back its program id and payload |
| Transaction.NewProgramCreate | src/core/transaction.cpp:84-94 | a program creation goes to the null address with amount 0, is classified as such and has a program id but no payload |
| Transaction.NewFee | src/core/transaction.cpp:158-164 | a fee pays its amount to the miner with fee 0 at the given time |
| Transaction.MakeLayer2 | src/core/transaction.cpp:203-207 | makeLayer2 turns a transaction into a layer-2 one carrying the given program id and payload; every field other than timestamp, program id and payload is kept |
| Transaction.FromInfo | src/core/transaction.cpp:100-111 | building from a record keeps every field, except that a fee's sender becomes the null address |
| Transaction.FromInfoEqual | src/core/transaction.cpp:100-111 | the rebuilt transaction equals its record under `operator==` |
| Transaction.Encode | src/core/transaction.cpp:34-46 | a record is 309 bytes |
| Transaction.EncodeLayout | src/core/transaction.cpp:34-46 | signature, key, big-endian timestamp, recipient, amount, fee, fee flag, program id and payload sit at their fixed offsets |
| Transaction.Decode | src/core/transaction.cpp:12-32 | a decoded fee has the null sender, and any other transaction's sender is the wallet of its signing key |
| Transaction.DecodeEncode | src/core/transaction.cpp:12-46 | decoding an encoded transaction gives it back, with the sender re-derived from the key |
| Transaction.EncodeDecode | src/core/transaction.cpp:12-46 | every 309-byte record whose fee flag is 0 or 1 is re-encoded byte for byte |
| Transaction.ContentPreimage | src/core/transaction.cpp:296-314 | the content hash covers recipient, sender unless a fee, program id only for program creation, then fee, amount and timestamp (24 bytes) |
| Transaction.PreimageLayout | src/core/transaction.cpp:296-314 | each hashed field sits at its offset, the integers in host (little-endian) byte order |
| Transaction.PreimageDetermines | src/core/transaction.cpp:296-314 | two transactions of the same kind with the same hashed bytes agree on every hashed field |
| Transaction.PreimageIgnores | src/core/transaction.cpp:296-314 | signature, key, payload and a fee's sender do not affect the content hash |
| Transaction.TxHashPreimage | src/core/transaction.cpp:268-279 | the transaction hash covers the content hash followed by the signature, except for fees |
| Transaction.SignatureValid | src/core/transaction.cpp:256-261 | a fee is always valid; otherwise validity is the signature check of the content hash under the signing key |
| Transaction.EqualIsEquivalence | src/core/transaction.cpp:326-345 | `operator==` is reflexive, symmetric and transitive |
| Transaction.FeeEqualityIgnoresSigner | src/core/transaction.cpp:326-345 | fees compare equal whatever their sender, signature and key |
| Transaction.DecodeEncodeEqual | src/core/transaction.cpp:12-46 | a transaction whose sender matches its key survives the binary round trip under `operator==` |
| Transaction.ToJson | src/core/transaction.cpp:209-233 | the JSON has an empty sender exactly for fees, payload only for layer 2, program id for layer 2 and program creation, signature and key only off fees, and the content hash as txid |
| Transaction.FromJson | src/core/transaction.cpp:166-194 | parsing needs sender, recipient and timestamp; an empty sender makes a fee; the timestamp is read from its decimal text |
| Transaction.JsonRoundTrip | src/core/transaction.cpp:166-233 | every transaction survives toJson then the JSON constructor under `operator==` |
| Api.Chunks | src/core/api.cpp:166-172 | a body splits into consecutive fixed-size records, dropping a trailing short piece |
| Api.ChunksFlatten | src/core/api.cpp:166-172 | splitting the concatenation of equal-size records gives the records back |
| Api.ReadRawHeaders | src/core/api.cpp:157-173 | the headers are the decodings of every whole header-sized record in the body, in order |
| Api.ReadRawHeadersRoundTrip | src/core/api.cpp:157-173 | a body of encoded headers, each one the header struct can hold, reads back as those headers |
| Api.ReadRawTransactions | src/core/api.cpp:208-222 | the transactions are the decodings of every whole 309-byte record in the body, in order |
| Api.ReadRawTransactionsRoundTrip | src/core/api.cpp:208-222 | a body of encoded transactions reads back as those transactions with senders re-derived |
| Api.BlockBody | src/core/api.cpp:79-98 | a submitted block is its header record followed by its transactions' records at fixed offsets |
| Api.SendTransactionBody | src/core/api.cpp:108-119 | a sent transaction is one 309-byte record that reads back as that transaction |
| Api.ReadRawBlocks | src/core/api.cpp:175-206 | a body shorter than a header is invalid; otherwise every block read counts its transactions and the sizes of the blocks read add up to the body |
| Api.ParseBlocksStep | src/core/api.cpp:182-205 | one block whose header the header struct can hold is read from the front of the body, and parsing continues with what follows it |
| Api.ReadRawBlocksRoundTrip | src/core/api.cpp:175-206 | a body of encoded blocks whose headers the header struct can hold reads back as those blocks |
| Api.TryHost | src/core/api.cpp:35-45 | a failed request yields nothing; otherwise the body is handed to the parser |
| Api.ParseBlockCount | src/core/api.cpp:16-23 | a block count is read only from a body that holds a digit |
| Api.SkipSpace | src/core/api.cpp:19 | `strtoul` skips exactly the leading white-space characters and stops at the first other character |
| Api.SkipSpaceOf | src/core/api.cpp:19 | white space followed by any other character is skipped up to that character |
| Api.ParseSigned | src/core/api.cpp:19 | after the white space, a sign is taken off before the digits, and a count is read only when a digit follows |
| Api.ParseSignedOf | src/core/api.cpp:19 | an optional `+` or `-` followed by digits and then a non-digit reads those digits, negated after `-` |
| Api.ParseDigitsOf | src/core/api.cpp:19 | the digits of a number below 2^64 give that number cut to 32 bits, or after `-` its negation modulo 2^64 cut to 32 bits |
| Api.BlockCountRoundTrip | src/core/api.cpp:16-50 | a decimal count below 2^64, after any white space and an optional sign and followed by a non-digit, reads back cut to 32 bits, and after `-` as its negation modulo 2^64 cut to 32 bits |
| Api.BlockCountOf | src/core/api.cpp:16-23 | the same for a count with nothing after it |
| Api.BlockCountSpaceLed | src/core/api.cpp:16-23 | `" 42"` reads as 42 |
| Api.BlockCountPlus | src/core/api.cpp:16-23 | `"+42"` reads as 42 |
| Api.BlockCountMinusOne | src/core/api.cpp:16-23 | `"-1"` reads as 4294967295 |
| Api.BlockCountSignOnly | src/core/api.cpp:16-23 | `" -"` holds no digits and is rejected |
| Api.BlockCountExact | src/core/api.cpp:48-50 | a 32-bit count in decimal reads back exactly |
| Api.GetName | src/core/api.cpp:56-58 | an unreachable host has no name, and a reachable one gives its reply as the JSON parser reads it |
| Api.PingBody | src/core/api.cpp:64-77 | the ping body has exactly the address, network name, time and version fields, carrying the given values |
| BlockStore.KeysDistinct | src/server/block_store.cpp:198-230 | block keys (4 bytes), transaction keys (8 bytes), wallet keys (57 bytes) and the two counters never collide, and each key determines its parts |
| BlockStore.BlockCountRoundTrip | src/server/block_store.cpp:14-65 | a stored block count reads back unchanged and `hasBlockCount` then holds |
| BlockStore.GetBlockCount | src/server/block_store.cpp:25-34 | reading a missing block count throws; a stored count of at least 8 bytes is always read |
| BlockStore.TotalWorkRoundTrip | src/server/block_store.cpp:35-56 | stored work is written as decimal text and reads back unchanged |
| BlockStore.GetTotalWork | src/server/block_store.cpp:46-56 | a missing entry throws, and text that is not a decimal number is reported as corrupt |
| BlockStore.GetBlockHeader | src/server/block_store.cpp:74-83 | a header is read exactly when its block key holds one |
| BlockStore.ReadTransactions | src/server/block_store.cpp:85-101 | the transactions are read exactly when every key (id, i) holds one, in index order |
| BlockStore.GetBlock | src/server/block_store.cpp:126-136 | a block read back counts its transactions; a missing header makes it fail |
| BlockStore.GetRawData | src/server/block_store.cpp:103-124 | raw data exists only for a stored header and is one header plus 309 bytes per transaction |
| BlockStore.SetBlock | src/server/block_store.cpp:198-243 | storing a block writes its header and adds exactly its block key, its transaction keys and both wallet keys of each transaction |
| BlockStore.SetBlockKeeps | src/server/block_store.cpp:198-243 | every other key keeps its value |
| BlockStore.SetBlockWrites | src/server/block_store.cpp:205-240 | transaction i is stored at key (id, i), and each wallet key holds an empty value |
| BlockStore.StoredBlockReads | src/server/block_store.cpp:74-135 | a block whose header and transactions are stored under its id is read back by `getBlock` with its header |
| BlockStore.SetBlockStores | src/server/block_store.cpp:198-243 | after `setBlock` the block's header and transactions are stored under its id |
| BlockStore.SetBlockKeepsStored | src/server/block_store.cpp:198-243 | `setBlock` of a block with another id leaves a stored block stored |
| BlockStore.CountAndWorkKeepStored | src/server/block_store.cpp:14-44 | writing the block count or the total work leaves a stored block stored |
| BlockStore.SetThenReadTransactions | src/server/block_store.cpp:85-243 | the transactions of a stored block read back in order |
| BlockStore.SetThenRawData | src/server/block_store.cpp:103-243 | the raw data of a stored block is exactly the body the node submits for it |
| BlockStore.SetBlockWellFormed | src/server/block_store.cpp:198-243 | storing a block keeps every key of a well-formed store in one of the key shapes |
| BlockStore.RemoveBlockWalletTransactions | src/server/block_store.cpp:170-196 | removal deletes exactly the block's wallet keys |
| BlockStore.SetThenRemoveRestoresWallets | src/server/block_store.cpp:170-243 | storing a block and then removing its wallet transactions restores the wallet index, when none of those keys were present before |
| BlockStore.RangeSchema | src/server/block_store.cpp:137-160 | in a well-formed store a key lies in a wallet's scan range exactly when it is a wallet key of that wallet whose hash is not all-ones |
| BlockStore.GetTransactionsForWallet | src/server/block_store.cpp:137-167 | the wallet's transaction ids are exactly the ids stored under its address, except the all-ones id, in ascending byte order |
| HostManager.IsJsHost | src/core/host_manager.cpp:31-33 | a host is a browser relay exactly when `peer://` occurs anywhere in its address |
| HostManager.ListEntry | src/core/host_manager.cpp:133-139 | a list line starting with `#` is skipped; otherwise it is taken with one trailing slash dropped |
| HostManager.LoadList | src/core/host_manager.cpp:130-159 | the blacklist or whitelist holds exactly the entries of its non-comment lines |
| HostManager.TrailingSlashIgnored | src/core/host_manager.cpp:136-138 | a host listed with or without its trailing slash gives the same entry |
| HostManager.FreshSpec | src/core/host_manager.cpp:202-204 | a host is fresh when its last ping is under three hours old; a ping time in the future is fresh only when it wraps around to under three hours |
| HostManager.CollectDeltas | src/core/host_manager.cpp:200-210 | the deltas collected are exactly those of fresh hosts that have a recorded delta, read as `int32_t` |
| HostManager.PingOrder | src/core/host_manager.cpp:201 | the walk visits every host of the ping table once, in strictly ascending `std::map` order |
| HostManager.ContributorsIn | src/core/host_manager.cpp:201-210 | the hosts whose delta a walk collects are exactly the contributing hosts it visits, each once when the walk repeats no host |
| HostManager.CollectDeltasPerHost | src/core/host_manager.cpp:201-210 | the walk pushes exactly one delta per contributing host, in the order it visits them |
| HostManager.NetworkDeltasPerHost | src/core/host_manager.cpp:198-210 | the network deltas are the clock deltas of a duplicate-free list of exactly the contributing hosts, one per host |
| HostManager.NetworkDeltasMembers | src/core/host_manager.cpp:198-210 | a value is a network delta exactly when it is the clock delta of a contributing host |
| HostManager.FreshDeltasPresent | src/core/host_manager.cpp:201-212 | a contributing host keeps the deltas non-empty, so the median branch is taken |
| HostManager.SmallDeltasFit | src/core/host_manager.cpp:219 | when every fresh delta is below 2^30 in size, the middle pair's sum fits an `int` |
| HostManager.TwoHostDeltas | src/core/host_manager.cpp:198-210 | with exactly two contributing hosts, the deltas are their two clock deltas, each once |
| HostManager.MedianOfTwo | src/core/host_manager.cpp:216-220 | the median of two sorted values is their sum, narrowed to `int`, halved toward zero |
| HostManager.NetworkTimestampTwoHosts | src/core/host_manager.cpp:198-226 | with exactly two contributing hosts, the network time is the local clock plus the truncated average of their two deltas (deltas 0 and 10 give the clock plus 5) |
| HostManager.NetworkTimestamp | src/core/host_manager.cpp:212 | with no contributing host the network time is the local clock |
| HostManager.NetworkTimestampIsMedian | src/core/host_manager.cpp:214-226 | otherwise it is the local clock plus the median of the sorted deltas, wrapped to 64 bits |
| HostManager.NetworkTimestampWithin | src/core/host_manager.cpp:198-226 | when every fresh delta is below 2^30 in size, the median offset lies between the deltas of two contributing hosts |
| HostManager.MedianBounds | src/core/host_manager.cpp:216-224 | when the middle pair's sum fits an `int`, the median of sorted deltas lies between the first and the last |
| HostManager.MedianRoundsTowardZero | src/core/host_manager.cpp:219 | when the middle pair's sum fits an `int`, twice the median is within one of that sum and on its side of zero, so the average rounds toward zero |
| HostManager.MedianOverflows | src/core/host_manager.cpp:219 | two deltas of 1760000000 overflow the `int` sum, and the wrapped average is -387483648, below both |
| HostManager.MedianOfSortIgnoresOrder | src/core/host_manager.cpp:201-214 | the median does not depend on the order in which the deltas were collected |
| HostManager.ScanResult | src/core/host_manager.cpp:233-245 | the scan over peers finds the first peer of strictly greatest positive work, or none when no peer has work |
| HostManager.FirstBestExists | src/core/host_manager.cpp:238-243 | such a first best peer exists exactly when some peer has positive work |
| HostManager.FirstBestUnique | src/core/host_manager.cpp:238-243 | the first best peer is unique |
| HostManager.GetGoodHost | src/core/host_manager.cpp:233-245 | no peers give the empty host; without work the first peer; otherwise the first peer of greatest work |
| HostManager.GetBlockCount | src/core/host_manager.cpp:262-274 | the block count is the chain length of the first peer of greatest work, or 0 when none has work |
| HostManager.GetTotalWork | src/core/host_manager.cpp:279-289 | the total work is the greatest work among peers, or 0 |
| HostManager.UnreachablePeerNotChosen | src/core/host_manager.cpp:233-274 | a peer whose block count request failed is never the one `getGoodHost` and `getBlockCount` follow; when some peer has work, both follow another peer, the first of greatest work |
| HostManager.FindPeer | src/core/host_manager.cpp:297-302 | the search finds the first peer following the host, or none exactly when no peer follows it |
| HostManager.GetBlockHash | src/core/host_manager.cpp:294-304 | the hash comes from the first peer following the host, and is NULL when none does |
| HostManager.Candidates | src/core/host_manager.cpp:319-327 | sampling candidates are exactly the fresh hosts that are not browser relays and answer a block count |
| HostManager.ByHeightExists | src/core/host_manager.cpp:335-338 | the candidates can always be ordered by descending height |
| HostManager.TakeByHeight | src/core/host_manager.cpp:343-347 | taking the first `count` candidates by height gives min(count, candidates) hosts, none lower than any host left out |
| HostManager.SampleFreshHosts | src/core/host_manager.cpp:311-350 | with no candidates the three fixed hosts are returned; otherwise min(count, candidates) of the highest candidates |
| HostManager.SampleSize | src/core/host_manager.cpp:311-350 | a sample never holds more than max(count, 3) hosts |
| HostManager.AddPeer | src/core/host_manager.cpp:355-410 | an announcement never floods back to its sender, keeps the host list free of duplicates, never grows the followed peers past nine, and at most appends the sender to the host list |
| HostManager.AddPeerRejected | src/core/host_manager.cpp:356-383 | a wrong network, an outdated version, a blacklisted host, an unreachable new host or one outside a non-empty whitelist changes nothing |
| HostManager.AddPeerKnown | src/core/host_manager.cpp:362-369 | a known host gets its ping time set to now and its clock delta set to now minus its time, wrapped to 64 bits, and nothing else changes |
| HostManager.AddPeerAdmitted | src/core/host_manager.cpp:377-405 | an admitted host is appended, followed while fewer than nine peers are, and announced to a fresh sample of ten hosts other than itself |
| HostManager.TextPrefix | src/core/host_manager.cpp:439-441 | a source contributes the strings it lists before its first non-string value, which stops the loop |
| HostManager.TextPrefixStopsAtFirstOther | src/core/host_manager.cpp:439-441 | when item k is the first non-string value, the source contributes exactly the k strings before it, whatever follows |
| HostManager.MergeSources | src/core/host_manager.cpp:430-445 | the merged host list is exactly the strings each answering source lists before its first non-string value |
| HostManager.Admitted | src/core/host_manager.cpp:452-487 | the hosts taken on are exactly the listed ones not already known, not blacklisted, answering a version no older than the minimum, and whitelisted when a whitelist exists |
| HostManager.PingAll | src/core/host_manager.cpp:480 | each admitted host gets ping time now and no other ping time changes |
| HostManager.RefreshHostList | src/core/host_manager.cpp:425-489 | refreshing only appends admitted hosts to the host list, stamps their ping time, changes nothing else and keeps the list free of duplicates |
| HostManager.Follow | src/core/host_manager.cpp:499-501 | each sampled host gets a fresh header chain with the node's checkpoints and banned hashes |
| HostManager.SyncHeadersWithPeers | src/core/host_manager.cpp:491-502 | the followed peers are replaced by fresh chains for exactly the hosts of a nine-host sample, in ascending order; nothing else changes |
| HostManager.SyncPeerBound | src/core/host_manager.cpp:491-502 | at most nine peers are followed after a sync |
| HostManager.GetHosts | src/core/host_manager.cpp:507-520 | the host list is the fresh hosts in ascending order, followed by the node's own address when asked |
| SimpleNft.SetWallet | src/wasm/simple_nft.cpp:43 | setting a wallet entry changes that entry only |
| SimpleNft.SetSha256 | src/wasm/simple_nft.cpp:44 | setting a hash entry changes that entry only |
| SimpleNft.ReadBlock | src/wasm/simple_nft.cpp:21-34 | the contract reads the header at the front and transaction i at the header size plus 309·i |
| SimpleNft.ReadBlockRoundTrip | src/wasm/simple_nft.cpp:21-34 | a buffer laid out as the node submits a block, whose header the header struct can hold, reads back as that block |
| SimpleNft.RunTransactions | src/wasm/simple_nft.cpp:49-71 | with the signature check failing as written, the store never changes and a status is set exactly when the block has transactions; in any case only the owner entry can change, to an earlier owner or a recipient |
| SimpleNft.ExecuteBlock | src/wasm/simple_nft.cpp:20-72 | the genesis block sets a null owner and a null content hash and returns SUCCESS; any other block leaves the store unchanged and returns a status exactly when it has transactions |
| SimpleNft.GenesisRecord | src/wasm/simple_nft.cpp:38-47 | the genesis block touches no other entry |
| SimpleNft.FirstTransactionDecides | src/wasm/simple_nft.cpp:50-69 | any other block returns INVALID_SIGNATURE when its first transaction comes from the owner and BALANCE_TOO_LOW otherwise |
| SimpleNft.OwnershipChain | src/wasm/simple_nft.cpp:50-70 | if the signature check passed, a chain of transfers each from the previous recipient would hand ownership to the last recipient |
| Types.Wrap64 | src/core/host_manager.cpp:202 | `uint64_t` arithmetic agrees with the true result modulo 2^64 and is exact in range |
| Types.ToInt32 | src/core/host_manager.cpp:200-207 | a 64-bit delta stored into an `int32_t` agrees modulo 2^32 and is exact in range |
| Types.CDiv | src/core/host_manager.cpp:219 | the remainder of C++ division is smaller than the divisor and takes the dividend's sign |
| Types.CDivUnique | src/core/host_manager.cpp:219 | that remainder condition determines the quotient, so it characterises truncating division |
| Types.CDivOdd | src/core/host_manager.cpp:219 | negating the dividend negates the quotient |
| Types.NetworkUint64RoundTrip | src/core/transaction.cpp:12-46 | a 64-bit field written in network order reads back |
| Types.ReadNetworkUint64RoundTrip | src/core/transaction.cpp:12-46 | any 8 bytes read in network order are written back identically |
| Types.NetworkUint32RoundTrip | src/core/transaction.cpp:12-46 | a 32-bit field written in network order reads back |
| Types.HostUint64RoundTrip | src/core/transaction.cpp:296-314 | a 64-bit field copied as raw memory reads back |
| Decimal.ParseToDecimal | src/server/block_store.cpp:37-52 | decimal text written for a number parses back to it |
| Decimal.Parse | src/server/block_store.cpp:52-55 | text parses exactly when it is a non-empty run of digits |
| LexOrder.SortedStrings | src/core/host_manager.cpp:201 | `std::map` and `std::set` iteration visits every key once, in strictly ascending order |
| Sorting.SortInts | src/core/host_manager.cpp:214 | sorting the deltas gives an ascending permutation of them |
| Sorting.SortedPermutationUnique | src/core/host_manager.cpp:214 | two ascending permutations of the same deltas are equal, so the sort's result is determined |

## Left out

- Threads, locks and asynchronous fan-out are not modelled: the endless `chain_sync` loop (one round is `HeaderChain.SyncStep`), `peer_sync`, `header_stats`, and the `std::async` requests of `addPeer`. The flood is returned as the set of hosts to ping.
- The HTTP transport, timeouts and JSON parsing of responses are not modelled: each reply is an `Option` parameter, and `getName` is a `NameReply`.
- Block hashing, nonce verification, difficulty, `addWork`, SHA-256, signatures and `walletAddressFromPublicKey` are not modelled. They are function parameters.
- `block.hpp`, `helpers.hpp` and the header codec are not part of this model. The header record's size and codec are parameters. Framing a block (`Api.BlockBody`, `BlockStore.GetRawData`) assumes only that the codec writes a fixed, positive number of bytes. The round trips also assume that decode inverts encode for the headers the struct can hold, that is, those whose remaining fields have the struct's width. The header's integer fields are `uint32_t`.
- BLOCK_HEADERS_PER_FETCH is a positive parameter.
- HeaderChain.LoadWorkMonotone: assumes that adding work never decreases it (`Blocks.WorkMonotone`), because `addWork` is not part of this model.
- `computeAddress`, `isValidIPv4`, the constructor's reading of its JSON config, and `getHeaderChainStats` are not modelled: they read the environment or only report.
- Logging (`spdlog`, `print`) is not modelled.
- HostManager.NetworkTimestamp: its contract covers only the empty case. The median case is stated by `HostManager.NetworkTimestampIsMedian` and `HostManager.NetworkTimestampWithin`.
- HostManager.ByHeightExists: `std::sort` is not stable, so the order among hosts of equal height is unspecified. The model fixes one order by height and proves only what holds for every such order.
- HostManager.AddPeer: which neighbours answer a ping is not modelled, and the flood set is the sample minus the sender.
- HostManager.RefreshHostList: the admission threads are modelled as running one after another in `std::set` order; the real interleaving can change only the order of appended hosts.
- `extractHostVersion` is modelled as `NameReply.Named(version)`, where `None` means the reply has no string version.
- HostManager.LoadList: lines must be non-empty. The source indexes the first and last character of every line, which is undefined for an empty line.
- HostManager.GetBlockHash: requires that the followed chain's `getHash` is defined. Id 0 on a non-empty chain indexes before the start.
- Api.ReadRawBlocks: a body that ends inside a block is reported as `Truncated`. The source reads past the end of the buffer there.
- SimpleNft.ExecuteBlock: requires the argument buffer to hold every counted transaction, because the contract reads it unchecked.
- The `useV0` variants of the transaction codec declared in `transaction.hpp` are not defined in any file of this model. The 309-byte layout is used everywhere, including the contract's `transactionInfoBufferSize(false)`.
- SimpleNft's `ExecutionStatus` is defined outside the modelled files. Only the three statuses the contract sets are modelled.
- The contract host's storage (`getWallet`, `setWallet`, `setSha256`, `setReturnValue`) is not modelled: it is external to the contract. It is a pair of maps plus `unsetWallet`, the value answered for a wallet never set.
- Transaction.FromJson: layer-2 `data` that decodes to fewer than 128 bytes is rejected. The source copies 128 bytes regardless, reading past the end of the decoded buffer, which is undefined.
- Transaction.FromJson: for a fee the source leaves the sender, signature and signing key uninitialised; the model sets them to zero.
- BlockStore.GetBlockCount: a stored value shorter than 8 bytes is reported as `Corrupt`. The source reads a `size_t` from the value unchecked, past its end for such a value, which is undefined.
- Transaction.NewTransfer: the signature, which the C++ constructor leaves uninitialised, is zero here.
- Transaction.NewLayer2: the signature, which the C++ constructor leaves uninitialised, is zero here.
- Transaction.NewProgramCreate: the signature, which the C++ constructor leaves uninitialised, is zero here.
- Transaction.NewFee: the sender, signature, signing key, program id and payload, which the C++ constructor leaves uninitialised, are zero or null here.
- Transaction.FromInfo: the source leaves a fee's sender default-initialised; the model sets it to the null address, which is what `Transaction.Decode` reads for fees.
- BlockStore transaction ids: the store is parameterised by `txid`, the content hash. `BlockStore.TxIds` builds it from `Transaction.HashContents`.
- `Bigint` is an unbounded `nat`, and `Bigint::from_string`/`to_string` are `Decimal.Parse`/`Decimal.ToDecimal`.
- BlockStore.GetRawData: a missing transaction key is reported as an error. The source dereferences the missing value before its status check.
- `int` loop counters in `load`, `getBlockTransactions` and `setBlock` are not narrowed to 32 bits. Block counts are `u32` and transaction counts stay below 2^32.
- HeaderChain.GetHashAfterLoad: modelled as written. `getHash` answers NULL for the tip's own id.
- HeaderChain.WarmStart: a failed store read is an error result. In the source it throws on the sync thread, where nothing catches it, so the process terminates. Partial pushes made before the throw are not modelled, because nothing observes them afterwards.
- HeaderChain.New: the source starts the sync thread before it assigns `checkPoints` and `bannedHashes`, so the first checks can race with those assignments. The model treats construction as complete before any round runs.
- HostManager.MedianBounds: proved only when the middle pair's sum fits an `int`. On overflow the sum is undefined in C++; the model wraps it, and `HostManager.MedianOverflows` shows a wrapped median outside the deltas.
- HostManager.NetworkTimestampWithin: proved only when every fresh delta is below 2^30 in size, so the middle pair's sum cannot overflow. `HostManager.NetworkTimestampIsMedian` states the timestamp for any deltas, with the wrapped sum.
- HostManager.MedianRoundsTowardZero: proved only when the middle pair's sum fits an `int`, for the same reason.
- HostManager.MergeSources: what iterating a parsed reply yields is a parameter, because JSON parsing is not modelled. A non-array reply is treated like the values its iteration visits.
- A rejected load in the source first sets `failed` and then calls `reset()`, which clears it again. The model follows the code: the chain ends reset with `failed` false.
