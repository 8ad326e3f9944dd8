/** One peer's claimed header chain and a single synchronisation attempt
    against it (src/core/header_chain.cpp). The peer's answers enter as
    parameters: the block count it reports and the header batch it returns
    for each requested range. */
module HeaderChain {
  import opened Types
  import opened Wrappers
  import opened Blocks
  import BlockStore

  datatype HeaderChain = HeaderChain(
    host: string,
    blockHashes: seq<Hash>,   // index 0 holds the hash of block 1
    totalWork: nat,
    chainLength: nat,
    offset: nat,
    failed: bool,
    hasBlockStore: bool,
    triedBlockStoreCache: bool,
    checkpoints: map<nat, Hash>,
    bannedHashes: map<nat, Hash>)

  /** The constructor (its background thread is not modelled). */
  function New(host: string, checkpoints: map<nat, Hash>, bannedHashes: map<nat, Hash>,
               hasBlockStore: bool): (r: HeaderChain)
    ensures r.host == host && r.checkpoints == checkpoints && r.bannedHashes == bannedHashes
    ensures r.blockHashes == [] && r.totalWork == 0 && r.chainLength == 0 && !r.failed
    ensures r.hasBlockStore == hasBlockStore && !r.triedBlockStoreCache
  {
    HeaderChain(host, [], 0, 0, 0, false, hasBlockStore, false, checkpoints, bannedHashes)
  }

  /** reset(): forget every header, clear the work and the failure flag. */
  function Reset(chain: HeaderChain): (r: HeaderChain)
    ensures r.blockHashes == [] && r.totalWork == 0 && r.chainLength == 0 && r.offset == 0
    ensures !r.failed
    ensures r.host == chain.host && r.checkpoints == chain.checkpoints
    ensures r.bannedHashes == chain.bannedHashes && r.hasBlockStore == chain.hasBlockStore
    ensures r.triedBlockStoreCache == chain.triedBlockStoreCache
  {
    chain.(failed := false, offset := 0, totalWork := 0, chainLength := 0, blockHashes := [])
  }

  predicate Valid(chain: HeaderChain) {
    !chain.failed && chain.totalWork > 0
  }

  /** getTotalWork(): a failed chain reports no work. */
  function GetTotalWork(chain: HeaderChain): nat {
    if chain.failed then 0 else chain.totalWork
  }

  /** getChainLength(): a failed chain reports no length. */
  function GetChainLength(chain: HeaderChain): nat {
    if chain.failed then 0 else chain.chainLength
  }

  function GetCurrentDownloaded(chain: HeaderChain): nat {
    |chain.blockHashes|
  }

  /** valid() holds exactly when getTotalWork() reports some work. */
  lemma ValidIffReportedWork(chain: HeaderChain)
    ensures Valid(chain) <==> GetTotalWork(chain) > 0
  {
  }

  /** A precondition of getHash: height 0 on a non-empty chain indexes
      before the start of the hash vector. */
  predicate GetHashDefined(chain: HeaderChain, blockId: nat) {
    blockId >= 1 || blockId >= |chain.blockHashes|
  }

  /** getHash(blockId): the hash at a 1-based height. The bound test is
      `blockId >= size`, so the newest accepted hash is never returned. */
  function GetHash(chain: HeaderChain, blockId: nat): (r: Hash)
    requires GetHashDefined(chain, blockId)
  {
    if blockId >= |chain.blockHashes| then NULL_HASH else chain.blockHashes[blockId - 1]
  }

  // ---------------------------------------------------------------------
  // Checking one header

  datatype Verdict = Accept | BannedHash | CheckpointMismatch | BadNonce | BrokenLink

  function LastHash(hashes: seq<Hash>): Hash {
    if |hashes| == 0 then NULL_HASH else hashes[|hashes| - 1]
  }

  /** The four checks of load(), in source order. The banned-hash and
      checkpoint tables are consulted at the header's own `id`, not at its
      position in the chain. */
  function Check(c: Crypto, chain: HeaderChain, h: BlockHeader, lastHash: Hash): (v: Verdict)
    ensures v == Accept <==>
      && !(h.id in chain.bannedHashes && c.blockHash(h) == chain.bannedHashes[h.id])
      && !(h.id in chain.checkpoints && c.blockHash(h) != chain.checkpoints[h.id])
      && c.verifyNonce(h)
      && h.lastBlockHash == lastHash
  {
    var hash := c.blockHash(h);
    if h.id in chain.bannedHashes && hash == chain.bannedHashes[h.id] then BannedHash
    else if h.id in chain.checkpoints && hash != chain.checkpoints[h.id] then CheckpointMismatch
    else if !c.verifyNonce(h) then BadNonce
    else if h.lastBlockHash != lastHash then BrokenLink
    else Accept
  }

  /** Everything but the downloaded headers, their work and the flags. */
  predicate SameSettings(a: HeaderChain, b: HeaderChain) {
    && a.host == b.host && a.checkpoints == b.checkpoints && a.bannedHashes == b.bannedHashes
    && a.hasBlockStore == b.hasBlockStore && a.triedBlockStoreCache == b.triedBlockStoreCache
  }

  /** Lines 127-132: record an accepted header. */
  function Append(c: Crypto, chain: HeaderChain, h: BlockHeader): HeaderChain {
    chain.(blockHashes := chain.blockHashes + [c.blockHash(h)],
           totalWork := c.addWork(chain.totalWork, h.difficulty),
           chainLength := |chain.blockHashes| + 1)
  }

  /** The inner loop over one batch: None when a header is rejected. */
  function ApplyHeaders(c: Crypto, chain: HeaderChain, hs: seq<BlockHeader>): (r: Option<HeaderChain>)
    ensures r.Some? ==> SameSettings(r.value, chain)
    decreases |hs|
  {
    if |hs| == 0 then Some(chain)
    else if Check(c, chain, hs[0], LastHash(chain.blockHashes)) != Accept then None
    else ApplyHeaders(c, Append(c, chain, hs[0]), hs[1..])
  }

  // ---------------------------------------------------------------------
  // The batches of one load()

  /** `r` is the list of ranges `[i, min(target, i + perFetch - 1)]` for
      `i = start, start + perFetch, ...` while `i <= target`: contiguous,
      each perFetch long except possibly the last, ending at target. */
  ghost predicate Batches(r: seq<(nat, nat)>, start: nat, target: nat, perFetch: nat) {
    && (|r| == 0 <==> start > target)
    && (|r| > 0 ==> r[0].0 == start && r[|r| - 1].1 == target)
    && (forall k :: 0 <= k < |r| ==>
         && r[k].0 == start + k * perFetch
         && r[k].0 <= r[k].1 <= target
         && r[k].1 - r[k].0 < perFetch)
    && (forall k :: 0 <= k < |r| - 1 ==> r[k].1 + 1 == r[k + 1].0 && r[k].1 - r[k].0 == perFetch - 1)
  }

  function BatchRanges(start: nat, target: nat, perFetch: nat): (r: seq<(nat, nat)>)
    requires perFetch > 0
    ensures Batches(r, start, target, perFetch)
    decreases target + 1 - start
  {
    if start > target then []
    else
      var end := if target < start + perFetch - 1 then target else start + perFetch - 1;
      var rest := BatchRanges(start + perFetch, target, perFetch);
      BatchesCons(start, end, target, perFetch, rest);
      [(start, end)] + rest
  }

  lemma BatchesCons(start: nat, end: nat, target: nat, perFetch: nat, rest: seq<(nat, nat)>)
    requires perFetch > 0 && start <= target
    requires end == if target < start + perFetch - 1 then target else start + perFetch - 1
    requires Batches(rest, start + perFetch, target, perFetch)
    ensures Batches([(start, end)] + rest, start, target, perFetch)
  {
    var r := [(start, end)] + rest;
    forall k | 0 <= k < |r| ensures r[k].0 == start + k * perFetch {
      if k > 0 {
        assert r[k] == rest[k - 1];
        assert (k - 1) * perFetch + perFetch == k * perFetch;
      }
    }
    forall k | 0 <= k < |r| - 1 ensures r[k].1 + 1 == r[k + 1].0 && r[k].1 - r[k].0 == perFetch - 1 {
      if k > 0 {
        assert r[k] == rest[k - 1] && r[k + 1] == rest[k];
      }
    }
  }

  /** One peer reply to `/block_headers?start=&end=`: the decoded headers,
      or an exception (transport failure, bad body). */
  datatype BatchReply = Headers(headers: seq<BlockHeader>) | Threw

  function LoadBatches(c: Crypto, chain: HeaderChain, ranges: seq<(nat, nat)>,
                       fetch: (nat, nat) -> BatchReply): (r: Option<HeaderChain>)
    ensures r.Some? ==> SameSettings(r.value, chain)
    decreases |ranges|
  {
    if |ranges| == 0 then Some(chain)
    else
      match fetch(ranges[0].0, ranges[0].1)
      case Threw => None
      case Headers(hs) =>
        match ApplyHeaders(c, chain, hs)
        case None => None
        case Some(next) => LoadBatches(c, next, ranges[1..], fetch)
  }

  /** load(): one synchronisation attempt. `blockCount` is the peer's
      answer to `/block_count` (None when unreachable); `fetch` answers each
      header range; `perFetch` is BLOCK_HEADERS_PER_FETCH. */
  function Load(c: Crypto, perFetch: nat, chain: HeaderChain, blockCount: Option<u32>,
                fetch: (nat, nat) -> BatchReply): (r: HeaderChain)
    requires perFetch > 0
    ensures blockCount.None? ==> r == chain.(failed := true)
    ensures SameSettings(r, chain)
  {
    if blockCount.None? then chain.(failed := true)
    else
      var ranges := BatchRanges(|chain.blockHashes| + 1, blockCount.value, perFetch);
      match LoadBatches(c, chain, ranges, fetch)
      case None => Reset(chain)
      case Some(next) => next.(failed := false)
  }

  // ---------------------------------------------------------------------
  // The outcome of load(), stated without its loops

  /** Every header reply in order, or None if any batch threw. */
  function Received(ranges: seq<(nat, nat)>, fetch: (nat, nat) -> BatchReply): Option<seq<BlockHeader>>
    decreases |ranges|
  {
    if |ranges| == 0 then Some([])
    else
      match fetch(ranges[0].0, ranges[0].1)
      case Threw => None
      case Headers(hs) =>
        match Received(ranges[1..], fetch)
        case None => None
        case Some(more) => Some(hs + more)
  }

  /** The hash each header of `hs` is checked to link to. */
  function PrevHash(c: Crypto, chain: HeaderChain, hs: seq<BlockHeader>, k: nat): Hash
    requires k < |hs|
  {
    if k == 0 then LastHash(chain.blockHashes) else c.blockHash(hs[k - 1])
  }

  /** Every header passes its checks, each linking to the one before it
      (the first to the chain's newest hash, or NULL on an empty chain). */
  ghost predicate AllAccepted(c: Crypto, chain: HeaderChain, hs: seq<BlockHeader>) {
    forall k :: 0 <= k < |hs| ==> Check(c, chain, hs[k], PrevHash(c, chain, hs, k)) == Accept
  }

  function HashesOf(c: Crypto, hs: seq<BlockHeader>): (r: seq<Hash>)
    ensures |r| == |hs|
    ensures forall k :: 0 <= k < |hs| ==> r[k] == c.blockHash(hs[k])
  {
    seq(|hs|, k requires 0 <= k < |hs| => c.blockHash(hs[k]))
  }

  /** addWork folded over the headers' difficulties. */
  function WorkFold(c: Crypto, work: nat, hs: seq<BlockHeader>): nat
    decreases |hs|
  {
    if |hs| == 0 then work else WorkFold(c, c.addWork(work, hs[0].difficulty), hs[1..])
  }

  /** The chain with `hs` accepted. */
  function Extended(c: Crypto, chain: HeaderChain, hs: seq<BlockHeader>): HeaderChain {
    chain.(blockHashes := chain.blockHashes + HashesOf(c, hs),
           totalWork := WorkFold(c, chain.totalWork, hs),
           chainLength := if |hs| == 0 then chain.chainLength else |chain.blockHashes| + |hs|)
  }

  lemma HashesOfAppend(c: Crypto, a: seq<BlockHeader>, b: seq<BlockHeader>)
    ensures HashesOf(c, a + b) == HashesOf(c, a) + HashesOf(c, b)
  {
    var l := HashesOf(c, a + b);
    var r := HashesOf(c, a) + HashesOf(c, b);
    forall k | 0 <= k < |l| ensures l[k] == r[k] {
      if k < |a| {
        assert (a + b)[k] == a[k];
      } else {
        assert (a + b)[k] == b[k - |a|];
      }
    }
  }

  lemma ExtendedAppend(c: Crypto, chain: HeaderChain, a: seq<BlockHeader>, b: seq<BlockHeader>)
    ensures Extended(c, Extended(c, chain, a), b) == Extended(c, chain, a + b)
  {
    HashesOfAppend(c, a, b);
    WorkFoldAppend(c, chain.totalWork, a, b);
    assert chain.blockHashes + HashesOf(c, a) + HashesOf(c, b) == chain.blockHashes + HashesOf(c, a + b);
    if |a| == 0 {
      assert a + b == b;
    }
  }

  lemma {:induction false} WorkFoldAppend(c: Crypto, w: nat, a: seq<BlockHeader>, b: seq<BlockHeader>)
    ensures WorkFold(c, WorkFold(c, w, a), b) == WorkFold(c, w, a + b)
    decreases |a|
  {
    if |a| == 0 {
      assert a + b == b;
    } else {
      assert (a + b)[1..] == a[1..] + b;
      WorkFoldAppend(c, c.addWork(w, a[0].difficulty), a[1..], b);
    }
  }

  lemma LastHashOfExtended(c: Crypto, chain: HeaderChain, a: seq<BlockHeader>)
    ensures LastHash(Extended(c, chain, a).blockHashes)
      == if |a| == 0 then LastHash(chain.blockHashes) else c.blockHash(a[|a| - 1])
  {
  }

  lemma AllAcceptedAppend(c: Crypto, chain: HeaderChain, a: seq<BlockHeader>, b: seq<BlockHeader>)
    ensures AllAccepted(c, chain, a + b) <==>
      AllAccepted(c, chain, a) && AllAccepted(c, Extended(c, chain, a), b)
  {
    if AllAccepted(c, chain, a) && AllAccepted(c, Extended(c, chain, a), b) {
      AllAcceptedJoin(c, chain, a, b);
    }
    if AllAccepted(c, chain, a + b) {
      AllAcceptedSplit(c, chain, a, b);
    }
  }

  /** Only the chain's checkpoints and banned hashes enter a check. */
  lemma CheckUsesSettingsOnly(c: Crypto, chain: HeaderChain, other: HeaderChain, h: BlockHeader, last: Hash)
    requires chain.checkpoints == other.checkpoints && chain.bannedHashes == other.bannedHashes
    ensures Check(c, chain, h, last) == Check(c, other, h, last)
  {
  }

  /** Where header k of the joined batch links to. */
  lemma PrevHashAppend(c: Crypto, chain: HeaderChain, a: seq<BlockHeader>, b: seq<BlockHeader>, k: nat)
    requires k < |a| + |b|
    ensures k < |a| ==> PrevHash(c, chain, a + b, k) == PrevHash(c, chain, a, k)
    ensures k >= |a| ==> PrevHash(c, chain, a + b, k) == PrevHash(c, Extended(c, chain, a), b, k - |a|)
  {
    LastHashOfExtended(c, chain, a);
    if k > 0 && k <= |a| {
      assert (a + b)[k - 1] == a[k - 1];
    }
    if k > |a| {
      assert (a + b)[k - 1] == b[k - |a| - 1];
    }
  }

  lemma AllAcceptedJoin(c: Crypto, chain: HeaderChain, a: seq<BlockHeader>, b: seq<BlockHeader>)
    requires AllAccepted(c, chain, a) && AllAccepted(c, Extended(c, chain, a), b)
    ensures AllAccepted(c, chain, a + b)
  {
    var e := Extended(c, chain, a);
    forall k | 0 <= k < |a + b|
      ensures Check(c, chain, (a + b)[k], PrevHash(c, chain, a + b, k)) == Accept
    {
      PrevHashAppend(c, chain, a, b, k);
      if k < |a| {
        assert (a + b)[k] == a[k];
      } else {
        assert (a + b)[k] == b[k - |a|];
        assert Check(c, e, b[k - |a|], PrevHash(c, e, b, k - |a|)) == Accept;
        CheckUsesSettingsOnly(c, chain, e, b[k - |a|], PrevHash(c, e, b, k - |a|));
      }
    }
  }

  lemma AllAcceptedSplit(c: Crypto, chain: HeaderChain, a: seq<BlockHeader>, b: seq<BlockHeader>)
    requires AllAccepted(c, chain, a + b)
    ensures AllAccepted(c, chain, a) && AllAccepted(c, Extended(c, chain, a), b)
  {
    var e := Extended(c, chain, a);
    forall k | 0 <= k < |a|
      ensures Check(c, chain, a[k], PrevHash(c, chain, a, k)) == Accept
    {
      PrevHashAppend(c, chain, a, b, k);
      assert (a + b)[k] == a[k];
    }
    forall k | 0 <= k < |b|
      ensures Check(c, e, b[k], PrevHash(c, e, b, k)) == Accept
    {
      PrevHashAppend(c, chain, a, b, |a| + k);
      assert (a + b)[|a| + k] == b[k];
      CheckUsesSettingsOnly(c, chain, e, b[k], PrevHash(c, e, b, k));
    }
  }

  lemma ExtendedOne(c: Crypto, chain: HeaderChain, h: BlockHeader)
    ensures Extended(c, chain, [h]) == Append(c, chain, h)
  {
    assert [h][1..] == [];
    assert WorkFold(c, chain.totalWork, [h]) == c.addWork(chain.totalWork, h.difficulty);
    assert HashesOf(c, [h]) == [c.blockHash(h)];
  }

  /** One batch is accepted whole, or rejected. */
  lemma {:induction false} ApplyHeadersSpec(c: Crypto, chain: HeaderChain, hs: seq<BlockHeader>)
    ensures ApplyHeaders(c, chain, hs) ==
      if AllAccepted(c, chain, hs) then Some(Extended(c, chain, hs)) else None
    decreases |hs|
  {
    if |hs| > 0 {
      var h := hs[0];
      var rest := hs[1..];
      var next := Append(c, chain, h);
      assert AllAccepted(c, chain, hs) <==>
          Check(c, chain, h, LastHash(chain.blockHashes)) == Accept && AllAccepted(c, next, rest) by {
        assert hs == [h] + rest;
        AllAcceptedAppend(c, chain, [h], rest);
        ExtendedOne(c, chain, h);
        assert PrevHash(c, chain, [h], 0) == LastHash(chain.blockHashes);
      }
      assert Extended(c, chain, hs) == Extended(c, next, rest) by {
        assert hs == [h] + rest;
        ExtendedAppend(c, chain, [h], rest);
        ExtendedOne(c, chain, h);
      }
      ApplyHeadersSpec(c, next, rest);
    } else {
      assert Extended(c, chain, hs) == chain;
    }
  }

  lemma {:induction false} LoadBatchesSpec(c: Crypto, chain: HeaderChain, ranges: seq<(nat, nat)>,
                                           fetch: (nat, nat) -> BatchReply)
    ensures LoadBatches(c, chain, ranges, fetch) ==
      var got := Received(ranges, fetch);
      if got.Some? && AllAccepted(c, chain, got.value) then Some(Extended(c, chain, got.value))
      else None
    decreases |ranges|
  {
    if |ranges| == 0 {
      assert Extended(c, chain, []) == chain;
    } else {
      match fetch(ranges[0].0, ranges[0].1)
      case Threw =>
      case Headers(hs) =>
        ApplyHeadersSpec(c, chain, hs);
        var rest := Received(ranges[1..], fetch);
        if rest.Some? {
          AllAcceptedAppend(c, chain, hs, rest.value);
          ExtendedAppend(c, chain, hs, rest.value);
        }
        if AllAccepted(c, chain, hs) {
          LoadBatchesSpec(c, Extended(c, chain, hs), ranges[1..], fetch);
        }
    }
  }

  /** The outcome of load() when the peer answered its block count: either
      every header of every batch passed, and the chain is the old one
      extended by their hashes in order with their work added; or the
      chain is wiped, including the history it held before the call. */
  lemma LoadOutcome(c: Crypto, perFetch: nat, chain: HeaderChain, target: u32,
                    fetch: (nat, nat) -> BatchReply)
    requires perFetch > 0
    ensures var got := Received(BatchRanges(|chain.blockHashes| + 1, target, perFetch), fetch);
      Load(c, perFetch, chain, Some(target), fetch) ==
        if got.Some? && AllAccepted(c, chain, got.value)
        then Extended(c, chain, got.value).(failed := false)
        else Reset(chain)
  {
    LoadBatchesSpec(c, chain, BatchRanges(|chain.blockHashes| + 1, target, perFetch), fetch);
  }

  /** A header that fails any check anywhere in the attempt wipes the chain:
      no hashes, no work, no length, and, because reset() runs after the
      flag is raised, `failed` ends false. */
  lemma RejectedHeaderWipes(c: Crypto, perFetch: nat, chain: HeaderChain, target: u32,
                            fetch: (nat, nat) -> BatchReply, k: nat)
    requires perFetch > 0
    requires var got := Received(BatchRanges(|chain.blockHashes| + 1, target, perFetch), fetch);
      got.Some? && k < |got.value| && Check(c, chain, got.value[k], PrevHash(c, chain, got.value, k)) != Accept
    ensures var r := Load(c, perFetch, chain, Some(target), fetch);
      r.blockHashes == [] && r.totalWork == 0 && r.chainLength == 0 && !r.failed && !Valid(r)
    ensures var r := Load(c, perFetch, chain, Some(target), fetch);
      GetTotalWork(r) == 0 && GetChainLength(r) == 0
  {
    LoadOutcome(c, perFetch, chain, target, fetch);
  }

  /** A peer that does not answer `/block_count` is marked failed: whatever
      it held, it then reports no work and no length and is not valid. */
  lemma UnreachableReportsNothing(c: Crypto, perFetch: nat, chain: HeaderChain,
                                  fetch: (nat, nat) -> BatchReply)
    requires perFetch > 0
    ensures var r := Load(c, perFetch, chain, None, fetch);
      GetTotalWork(r) == 0 && GetChainLength(r) == 0 && !Valid(r) && r.blockHashes == chain.blockHashes
  {
  }

  /** After a load() that accepts every fetched header, getHash answers the
      hashes held before at their heights and each fetched header's hash at
      the height it was appended at, except that the newest height, whose
      hash is held, reads as NULL. */
  lemma GetHashAfterLoad(c: Crypto, perFetch: nat, chain: HeaderChain, target: u32,
                         fetch: (nat, nat) -> BatchReply)
    requires perFetch > 0
    requires var got := Received(BatchRanges(|chain.blockHashes| + 1, target, perFetch), fetch);
      got.Some? && AllAccepted(c, chain, got.value)
    ensures var got := Received(BatchRanges(|chain.blockHashes| + 1, target, perFetch), fetch).value;
      var r := Load(c, perFetch, chain, Some(target), fetch);
      && |r.blockHashes| == |chain.blockHashes| + |got|
      && (forall id :: 1 <= id <= |chain.blockHashes| && id < |r.blockHashes| ==>
            GetHash(r, id) == chain.blockHashes[id - 1])
      && (forall k :: 0 <= k < |got| - 1 ==> GetHash(r, |chain.blockHashes| + k + 1) == c.blockHash(got[k]))
      && GetHash(r, |r.blockHashes|) == NULL_HASH
      && (|r.blockHashes| > 0 ==> r.blockHashes[|r.blockHashes| - 1] != NULL_HASH ==>
            GetHash(r, |r.blockHashes|) != r.blockHashes[|r.blockHashes| - 1])
  {
    LoadOutcome(c, perFetch, chain, target, fetch);
    var got := Received(BatchRanges(|chain.blockHashes| + 1, target, perFetch), fetch).value;
    var r := Load(c, perFetch, chain, Some(target), fetch);
    assert r.blockHashes == chain.blockHashes + HashesOf(c, got);
  }

  /** A batch that throws wipes the chain the same way. */
  lemma ThrowingBatchWipes(c: Crypto, perFetch: nat, chain: HeaderChain, target: u32,
                           fetch: (nat, nat) -> BatchReply)
    requires perFetch > 0
    requires Received(BatchRanges(|chain.blockHashes| + 1, target, perFetch), fetch).None?
    ensures Load(c, perFetch, chain, Some(target), fetch) == Reset(chain)
  {
    LoadOutcome(c, perFetch, chain, target, fetch);
  }

  /** A peer that reports no more blocks than are held leaves the chain's
      hashes, work and length as they were and clears the failure flag. */
  lemma NothingToFetch(c: Crypto, perFetch: nat, chain: HeaderChain, target: u32,
                       fetch: (nat, nat) -> BatchReply)
    requires perFetch > 0
    requires target <= |chain.blockHashes|
    ensures Load(c, perFetch, chain, Some(target), fetch) == chain.(failed := false)
  {
    assert BatchRanges(|chain.blockHashes| + 1, target, perFetch) == [];
    LoadOutcome(c, perFetch, chain, target, fetch);
    assert Extended(c, chain, []) == chain;
  }

  /** load() keeps `chainLength == |blockHashes|`. */
  lemma LoadKeepsLength(c: Crypto, perFetch: nat, chain: HeaderChain, blockCount: Option<u32>,
                        fetch: (nat, nat) -> BatchReply)
    requires perFetch > 0
    requires chain.chainLength == |chain.blockHashes|
    ensures var r := Load(c, perFetch, chain, blockCount, fetch);
      r.chainLength == |r.blockHashes|
  {
    if blockCount.Some? {
      LoadOutcome(c, perFetch, chain, blockCount.value, fetch);
    }
  }

  lemma {:induction false} WorkFoldGrows(c: Crypto, w: nat, hs: seq<BlockHeader>)
    requires WorkMonotone(c)
    ensures WorkFold(c, w, hs) >= w
    ensures WorkIncreasing(c) && |hs| > 0 ==> WorkFold(c, w, hs) > w
    decreases |hs|
  {
    if |hs| > 0 {
      WorkFoldGrows(c, c.addWork(w, hs[0].difficulty), hs[1..]);
    }
  }

  /** Under the stated assumption on addWork, a load() that does not wipe
      the chain never lowers its work, and raises it whenever it grows the
      chain if every header adds work. */
  lemma LoadWorkMonotone(c: Crypto, perFetch: nat, chain: HeaderChain, target: u32,
                         fetch: (nat, nat) -> BatchReply)
    requires perFetch > 0
    requires WorkMonotone(c)
    ensures var r := Load(c, perFetch, chain, Some(target), fetch);
      r == Reset(chain) || r.totalWork >= chain.totalWork
    ensures var r := Load(c, perFetch, chain, Some(target), fetch);
      WorkIncreasing(c) && |r.blockHashes| > |chain.blockHashes| ==> r.totalWork > chain.totalWork
  {
    LoadOutcome(c, perFetch, chain, target, fetch);
    var got := Received(BatchRanges(|chain.blockHashes| + 1, target, perFetch), fetch);
    if got.Some? {
      WorkFoldGrows(c, chain.totalWork, got.value);
    }
  }

  /** Hashes the chain already held keep their heights across a load()
      that does not wipe it. */
  lemma LoadAppendOnly(c: Crypto, perFetch: nat, chain: HeaderChain, blockCount: Option<u32>,
                       fetch: (nat, nat) -> BatchReply)
    requires perFetch > 0
    ensures var r := Load(c, perFetch, chain, blockCount, fetch);
      r.blockHashes == [] || chain.blockHashes <= r.blockHashes
  {
    if blockCount.Some? {
      LoadOutcome(c, perFetch, chain, blockCount.value, fetch);
    }
  }

  // ---------------------------------------------------------------------
  // chain_sync: the block-store warm start, then load()

  /** getBlock(i) with a 64-bit loop counter: the id is narrowed to
      uint32_t on the way in. */
  function StoredBlock(db: BlockStore.DB, i: nat): (r: Result<Block, BlockStore.StoreError>)
    ensures i < U32_LIMIT ==> r == BlockStore.GetBlock(db, i)
  {
    BlockStore.GetBlock(db, (i % U32_LIMIT) as u32)
  }

  /** Lines 15-17 from block `i` on: the hashes of stored blocks i..count
      in order; the first block that cannot be read throws. */
  function StoredHashes(c: Crypto, db: BlockStore.DB, i: nat, count: nat)
    : (r: Result<seq<Hash>, BlockStore.StoreError>)
    requires 1 <= i <= count + 1
    ensures r.Ok? <==> forall k :: i <= k <= count ==> StoredBlock(db, k).Ok?
    ensures r.Ok? ==> |r.value| == count + 1 - i
    ensures r.Ok? ==> forall k :: i <= k <= count ==> r.value[k - i] == c.blockHash(StoredBlock(db, k).value.header)
    decreases count + 1 - i
  {
    if i > count then Ok([])
    else
      match StoredBlock(db, i)
      case Err(e) => Err(e)
      case Ok(b) =>
        match StoredHashes(c, db, i + 1, count)
        case Err(e) => Err(e)
        case Ok(rest) => Ok([c.blockHash(b.header)] + rest)
  }

  /** Lines 14-18: what the warm start reads from the block store, namely
      the block count, the hash of every stored block up to it, and the
      total work. A read that throws is not caught on the sync thread, so
      it ends the process; that outcome is the error. */
  function ReadStore(c: Crypto, db: BlockStore.DB): (r: Result<(seq<Hash>, nat), BlockStore.StoreError>)
    ensures r.Ok? ==> BlockStore.GetBlockCount(db).Ok? && BlockStore.GetTotalWork(db).Ok?
    ensures r.Ok? ==> |r.value.0| == BlockStore.GetBlockCount(db).value
    ensures r.Ok? ==> r.value.1 == BlockStore.GetTotalWork(db).value
    ensures BlockStore.GetBlockCount(db).Err? || BlockStore.GetTotalWork(db).Err? ==> r.Err?
  {
    match BlockStore.GetBlockCount(db)
    case Err(e) => Err(e)
    case Ok(count) =>
      match StoredHashes(c, db, 1, count)
      case Err(e) => Err(e)
      case Ok(hashes) =>
        match BlockStore.GetTotalWork(db)
        case Err(e) => Err(e)
        case Ok(work) => Ok((hashes, work))
  }

  /** Lines 13-20: hydrate from the local block store once: the stored
      hashes are appended, and the stored work and count replace the
      chain's. */
  function WarmStart(c: Crypto, chain: HeaderChain, db: BlockStore.DB): (r: Result<HeaderChain, BlockStore.StoreError>)
    ensures r.Ok? <==> ReadStore(c, db).Ok?
    ensures r.Ok? ==> r.value.blockHashes == chain.blockHashes + ReadStore(c, db).value.0
    ensures r.Ok? ==> r.value.totalWork == ReadStore(c, db).value.1
    ensures r.Ok? ==> r.value.chainLength == |ReadStore(c, db).value.0| && r.value.triedBlockStoreCache
    ensures r.Ok? ==> SameSettings(r.value.(triedBlockStoreCache := chain.triedBlockStoreCache), chain)
    ensures r.Ok? && chain.blockHashes == [] ==> r.value.chainLength == |r.value.blockHashes|
  {
    match ReadStore(c, db)
    case Err(e) => Err(e)
    case Ok((cached, work)) =>
      Ok(chain.(blockHashes := chain.blockHashes + cached, totalWork := work,
                chainLength := |cached|, triedBlockStoreCache := true))
  }

  /** The store after blocks are written with setBlock, one after another. */
  function FillStore(txid: BlockStore.TxIdOf, db: BlockStore.DB, bs: seq<Block>): BlockStore.DB
    requires forall k :: 0 <= k < |bs| ==> |bs[k].transactions| < U32_LIMIT
  {
    if |bs| == 0 then db
    else BlockStore.SetBlock(txid, FillStore(txid, db, bs[..|bs| - 1]), bs[|bs| - 1])
  }

  /** Blocks numbered 1, 2, ... in order, each holding as many transactions
      as its header says. */
  predicate Numbered(bs: seq<Block>) {
    && |bs| < U32_LIMIT
    && forall k :: 0 <= k < |bs| ==>
         bs[k].header.id == k + 1 && |bs[k].transactions| < U32_LIMIT && CountsTransactions(bs[k])
  }

  lemma {:induction false} FillStoreStores(txid: BlockStore.TxIdOf, db: BlockStore.DB, bs: seq<Block>)
    requires Numbered(bs)
    ensures forall k :: 0 <= k < |bs| ==> BlockStore.Stores(FillStore(txid, db, bs), bs[k])
    decreases |bs|
  {
    if |bs| > 0 {
      var init := bs[..|bs| - 1];
      var last := bs[|bs| - 1];
      assert Numbered(init);
      FillStoreStores(txid, db, init);
      var before := FillStore(txid, db, init);
      BlockStore.SetBlockStores(txid, before, last);
      forall k | 0 <= k < |bs| - 1
        ensures BlockStore.Stores(FillStore(txid, db, bs), bs[k])
      {
        assert bs[k] == init[k];
        BlockStore.SetBlockKeepsStored(txid, before, last, bs[k]);
      }
    }
  }

  /** The store filled with blocks 1..n, then the count and the work. */
  function FilledStore(txid: BlockStore.TxIdOf, db: BlockStore.DB, bs: seq<Block>, work: nat): BlockStore.DB
    requires Numbered(bs)
  {
    BlockStore.SetTotalWork(BlockStore.SetBlockCount(FillStore(txid, db, bs), |bs|), work)
  }

  /** Each read the warm start makes of a filled store succeeds. */
  lemma FilledStoreReads(txid: BlockStore.TxIdOf, db: BlockStore.DB, bs: seq<Block>, work: nat)
    requires Numbered(bs)
    ensures var store := FilledStore(txid, db, bs, work);
      && BlockStore.GetBlockCount(store) == Ok(|bs|)
      && BlockStore.GetTotalWork(store) == Ok(work)
      && forall k :: 1 <= k <= |bs| ==>
           StoredBlock(store, k).Ok? && StoredBlock(store, k).value.header == bs[k - 1].header
  {
    var filled := FillStore(txid, db, bs);
    var counted := BlockStore.SetBlockCount(filled, |bs|);
    var store := BlockStore.SetTotalWork(counted, work);
    assert BlockStore.GetBlockCount(store) == Ok(|bs|) by {
      BlockStore.BlockCountRoundTrip(filled, |bs|);
      BlockStore.KeysDistinct(0, 0, 0, 0, NULL_ADDRESS, NULL_ADDRESS, NULL_HASH, NULL_HASH);
    }
    assert BlockStore.GetTotalWork(store) == Ok(work) by {
      BlockStore.TotalWorkRoundTrip(counted, work);
    }
    FilledStoreBlocks(txid, db, bs, work);
  }

  /** Block k of a filled store reads back with its header. */
  lemma FilledStoreBlocks(txid: BlockStore.TxIdOf, db: BlockStore.DB, bs: seq<Block>, work: nat)
    requires Numbered(bs)
    ensures forall k :: 1 <= k <= |bs| ==>
      StoredBlock(FilledStore(txid, db, bs, work), k).Ok?
      && StoredBlock(FilledStore(txid, db, bs, work), k).value.header == bs[k - 1].header
  {
    var filled := FillStore(txid, db, bs);
    var counted := BlockStore.SetBlockCount(filled, |bs|);
    var store := BlockStore.SetTotalWork(counted, work);
    FillStoreStores(txid, db, bs);
    forall k | 1 <= k <= |bs|
      ensures StoredBlock(store, k).Ok? && StoredBlock(store, k).value.header == bs[k - 1].header
    {
      BlockStore.CountAndWorkKeepStored(filled, bs[k - 1], |bs|, work);
      BlockStore.CountAndWorkKeepStored(counted, bs[k - 1], |bs|, work);
      BlockStore.StoredBlockReads(store, bs[k - 1]);
    }
  }

  /** A store that holds blocks 1..n, written with setBlock, with the count
      and the work then recorded, warm-starts the chain with those blocks'
      hashes in order, that work and that length. */
  lemma WarmStartFromFilledStore(c: Crypto, txid: BlockStore.TxIdOf, chain: HeaderChain,
                                 db: BlockStore.DB, bs: seq<Block>, work: nat)
    requires Numbered(bs)
    ensures var r := WarmStart(c, chain, FilledStore(txid, db, bs, work));
      && r.Ok?
      && |r.value.blockHashes| == |chain.blockHashes| + |bs|
      && r.value.blockHashes[..|chain.blockHashes|] == chain.blockHashes
      && (forall k :: 0 <= k < |bs| ==> r.value.blockHashes[|chain.blockHashes| + k] == c.blockHash(bs[k].header))
      && r.value.totalWork == work && r.value.chainLength == |bs|
  {
    var store := FilledStore(txid, db, bs, work);
    FilledStoreReads(txid, db, bs, work);
    var cached := ReadStore(c, store).value.0;
    assert ReadStore(c, store) == Ok((StoredHashes(c, store, 1, |bs|).value, work));
    var r := WarmStart(c, chain, store).value;
    assert r.blockHashes == chain.blockHashes + cached;
    forall k | 0 <= k < |bs|
      ensures r.blockHashes[|chain.blockHashes| + k] == c.blockHash(bs[k].header)
    {
      assert cached[(k + 1) - 1] == c.blockHash(StoredBlock(store, k + 1).value.header);
    }
  }

  /** One iteration of chain_sync: the warm start runs only the first time
      and only for a chain given a block store; a failed store read ends
      the process before load() runs. */
  function SyncStep(c: Crypto, perFetch: nat, chain: HeaderChain, db: BlockStore.DB,
                    blockCount: Option<u32>, fetch: (nat, nat) -> BatchReply)
    : (r: Result<HeaderChain, BlockStore.StoreError>)
    requires perFetch > 0
    ensures !chain.triedBlockStoreCache && chain.hasBlockStore ==>
      (r.Ok? <==> ReadStore(c, db).Ok?) && (r.Ok? ==> r.value.triedBlockStoreCache)
    ensures chain.triedBlockStoreCache || !chain.hasBlockStore ==>
      r == Ok(Load(c, perFetch, chain, blockCount, fetch))
  {
    if !chain.triedBlockStoreCache && chain.hasBlockStore then
      match WarmStart(c, chain, db)
      case Err(e) => Err(e)
      case Ok(warm) => Ok(Load(c, perFetch, warm, blockCount, fetch))
    else
      Ok(Load(c, perFetch, chain, blockCount, fetch))
  }

  /** A fresh chain warm-started from a readable store and then
      synchronised keeps its length consistent; the cached history survives
      unless wiped. */
  lemma WarmStartThenLoad(c: Crypto, perFetch: nat, host: string, cp: map<nat, Hash>,
                          banned: map<nat, Hash>, db: BlockStore.DB,
                          blockCount: Option<u32>, fetch: (nat, nat) -> BatchReply)
    requires perFetch > 0
    ensures var r := SyncStep(c, perFetch, New(host, cp, banned, true), db, blockCount, fetch);
      && (r.Err? <==> ReadStore(c, db).Err?)
      && (r.Ok? ==> r.value.chainLength == |r.value.blockHashes|)
      && (r.Ok? ==> r.value.blockHashes == [] || ReadStore(c, db).value.0 <= r.value.blockHashes)
  {
    var w := WarmStart(c, New(host, cp, banned, true), db);
    if w.Ok? {
      LoadKeepsLength(c, perFetch, w.value, blockCount, fetch);
      LoadAppendOnly(c, perFetch, w.value, blockCount, fetch);
    }
  }
}
