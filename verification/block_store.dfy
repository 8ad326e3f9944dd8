/** The LevelDB key schema of the block store (src/server/block_store.cpp).
    The database is a map from byte-string keys to values, iterated in
    LevelDB's byte-wise key order. Block headers and transaction records
    are stored as raw copies of native structs; here they are opaque
    values. Keys are:
      - "BLOCK_COUNT" (11 bytes) and "TOTAL_WORK" (10 bytes);
      - a block id as the 4 in-memory bytes of a uint32_t;
      - a (block id, index) pair as 8 in-memory bytes;
      - a wallet index entry: a 25-byte address then a 32-byte txid. */
module BlockStore {
  import opened Types
  import opened Wrappers
  import opened Blocks
  import Transaction
  import Decimal
  import LexOrder
  import Api

  datatype Value =
    | Raw(bytes: seq<byte>)
    | HeaderValue(header: BlockHeader)
    | TxValue(info: Transaction.Transaction)

  type DB = map<seq<byte>, Value>

  datatype StoreError = NotFound | Corrupt

  // ---------------------------------------------------------------------
  // Keys

  predicate IsAscii(s: string) {
    forall i :: 0 <= i < |s| ==> s[i] as int < 128
  }

  /** The bytes of an ASCII string. */
  function Ascii(s: string): (r: seq<byte>)
    requires IsAscii(s)
    ensures |r| == |s|
  {
    seq(|s|, i requires 0 <= i < |s| => s[i] as int as byte)
  }

  /** A byte string read back as text, one character per byte. */
  function Text(b: seq<byte>): (s: string)
    ensures |s| == |b|
  {
    seq(|b|, i requires 0 <= i < |b| => b[i] as int as char)
  }

  lemma TextAscii(s: string)
    requires IsAscii(s)
    ensures Text(Ascii(s)) == s
  {
  }

  const COUNT_KEY: seq<byte> := Ascii("BLOCK_COUNT")
  const WORK_KEY: seq<byte> := Ascii("TOTAL_WORK")

  function BlockKey(id: u32): (k: seq<byte>)
    ensures |k| == 4
  {
    HostUint32(id)
  }

  function TxKey(id: u32, i: u32): (k: seq<byte>)
    ensures |k| == 8
  {
    HostUint32(id) + HostUint32(i)
  }

  function WalletKey(addr: Address, txid: Hash): (k: seq<byte>)
    ensures |k| == 57 && k[..25] == addr && k[25..] == txid
  {
    addr + txid
  }

  /** Every key this class writes has one of the five shapes above. */
  predicate KeyShape(k: seq<byte>) {
    |k| == 4 || |k| == 8 || |k| == 10 || |k| == 11 || |k| == 57
  }

  ghost predicate WellFormed(db: DB) {
    forall k :: k in db ==> KeyShape(k)
  }

  /** Keys of different kinds never collide, and each kind is injective. */
  lemma KeysDistinct(id: u32, id2: u32, i: u32, i2: u32, a: Address, a2: Address, t: Hash, t2: Hash)
    ensures BlockKey(id) != TxKey(id2, i2) && BlockKey(id) != WalletKey(a, t) && TxKey(id, i) != WalletKey(a, t)
    ensures COUNT_KEY != WORK_KEY && |COUNT_KEY| == 11 && |WORK_KEY| == 10
    ensures BlockKey(id) == BlockKey(id2) ==> id == id2
    ensures TxKey(id, i) == TxKey(id2, i2) ==> id == id2 && i == i2
    ensures WalletKey(a, t) == WalletKey(a2, t2) ==> a == a2 && t == t2
  {
    if BlockKey(id) == BlockKey(id2) {
      HostUint32Injective(id, id2);
    }
    if TxKey(id, i) == TxKey(id2, i2) {
      assert TxKey(id, i)[..4] == HostUint32(id) && TxKey(id, i)[4..] == HostUint32(i);
      assert TxKey(id2, i2)[..4] == HostUint32(id2) && TxKey(id2, i2)[4..] == HostUint32(i2);
      HostUint32Injective(id, id2);
      HostUint32Injective(i, i2);
    }
  }

  // ---------------------------------------------------------------------
  // Block count and total work

  /** setBlockCount: the 8 in-memory bytes of a size_t. */
  function SetBlockCount(db: DB, count: u64): (r: DB)
    ensures r.Keys == db.Keys + {COUNT_KEY}
    ensures forall k :: k in db && k != COUNT_KEY ==> r[k] == db[k]
  {
    db[COUNT_KEY := Raw(HostUint64(count))]
  }

  /** getBlockCount: a missing key throws; a value shorter than a size_t
      would be read past its end and is reported as corrupt. */
  function GetBlockCount(db: DB): (r: Result<u64, StoreError>)
    ensures COUNT_KEY !in db ==> r == Err(NotFound)
    ensures COUNT_KEY in db && db[COUNT_KEY].Raw? && |db[COUNT_KEY].bytes| >= 8 ==> r.Ok?
  {
    if COUNT_KEY !in db then Err(NotFound)
    else match db[COUNT_KEY]
      case Raw(b) => if |b| >= 8 then Ok(ReadHostUint(b[..8])) else Err(Corrupt)
      case _ => Err(Corrupt)
  }

  function HasBlockCount(db: DB): bool {
    COUNT_KEY in db
  }

  lemma BlockCountRoundTrip(db: DB, count: u64)
    ensures GetBlockCount(SetBlockCount(db, count)) == Ok(count)
    ensures HasBlockCount(SetBlockCount(db, count))
  {
    HostUint64RoundTrip(count);
    assert HostUint64(count)[..8] == HostUint64(count);
  }

  /** setTotalWork: the decimal text of the work. */
  function SetTotalWork(db: DB, work: nat): (r: DB)
    ensures r.Keys == db.Keys + {WORK_KEY}
    ensures forall k :: k in db && k != WORK_KEY ==> r[k] == db[k]
  {
    var text := Decimal.ToDecimal(work);
    db[WORK_KEY := Raw(Ascii(text))]
  }

  /** getTotalWork: the stored text must be a decimal number. */
  function GetTotalWork(db: DB): (r: Result<nat, StoreError>)
    ensures WORK_KEY !in db ==> r == Err(NotFound)
    ensures WORK_KEY in db && db[WORK_KEY].Raw? && Decimal.Parse(Text(db[WORK_KEY].bytes)).None?
      ==> r == Err(Corrupt)
  {
    if WORK_KEY !in db then Err(NotFound)
    else match db[WORK_KEY]
      case Raw(b) =>
        (match Decimal.Parse(Text(b))
         case Some(w) => Ok(w)
         case None => Err(Corrupt))
      case _ => Err(Corrupt)
  }

  lemma TotalWorkRoundTrip(db: DB, work: nat)
    ensures GetTotalWork(SetTotalWork(db, work)) == Ok(work)
  {
    var text := Decimal.ToDecimal(work);
    TextAscii(text);
    Decimal.ParseToDecimal(work);
  }

  // ---------------------------------------------------------------------
  // Blocks and their transactions

  function HasBlock(db: DB, id: u32): bool {
    BlockKey(id) in db
  }

  /** getBlockHeader: a missing key throws. */
  function GetBlockHeader(db: DB, id: u32): (r: Result<BlockHeader, StoreError>)
    ensures r.Ok? <==> BlockKey(id) in db && db[BlockKey(id)].HeaderValue?
    ensures r.Ok? ==> r.value == db[BlockKey(id)].header
  {
    if BlockKey(id) !in db then Err(NotFound)
    else match db[BlockKey(id)]
      case HeaderValue(h) => Ok(h)
      case _ => Err(Corrupt)
  }

  /** The records under keys (id, i) .. (id, n - 1), in order. */
  function ReadTransactions(db: DB, id: u32, i: nat, n: u32): (r: Result<seq<Transaction.Transaction>, StoreError>)
    requires i <= n
    ensures r.Ok? <==> forall j :: i <= j < n ==> TxKey(id, j) in db && db[TxKey(id, j)].TxValue?
    ensures r.Ok? ==> |r.value| == n - i
    ensures r.Ok? ==> forall j :: i <= j < n ==> r.value[j - i] == db[TxKey(id, j)].info
    decreases n - i
  {
    if i == n then Ok([])
    else
      var k := TxKey(id, i);
      if k !in db || !db[k].TxValue? then Err(NotFound)
      else
        match ReadTransactions(db, id, i + 1, n)
        case Err(e) => Err(e)
        case Ok(rest) => Ok([db[k].info] + rest)
  }

  /** getBlockTransactions: keyed on the header's own id. */
  function GetBlockTransactions(db: DB, h: BlockHeader): (r: Result<seq<Transaction.Transaction>, StoreError>)
    ensures r.Ok? ==> |r.value| == h.numTransactions
  {
    ReadTransactions(db, h.id, 0, h.numTransactions)
  }

  /** getBlock: the header stored under `id`, with the transactions stored
      under the header's own id. */
  function GetBlock(db: DB, id: u32): (r: Result<Block, StoreError>)
    ensures r.Ok? ==> CountsTransactions(r.value)
    ensures GetBlockHeader(db, id).Err? ==> r.Err?
  {
    match GetBlockHeader(db, id)
    case Err(e) => Err(e)
    case Ok(h) =>
      match GetBlockTransactions(db, h)
      case Err(e) => Err(e)
      case Ok(infos) =>
        Ok(Block(h, seq(|infos|, i requires 0 <= i < |infos| => Transaction.FromInfo(infos[i]))))
  }

  /** getRawData: the block as /sync serves it, transactions read under the
      requested id. */
  function GetRawData(db: DB, hc: HeaderCodec, id: u32): (r: Result<seq<byte>, StoreError>)
    requires FixedSize(hc)
    ensures r.Ok? ==> GetBlockHeader(db, id).Ok?
    ensures r.Ok? ==> |r.value| == hc.size + Api.TX_SIZE * GetBlockHeader(db, id).value.numTransactions
  {
    match GetBlockHeader(db, id)
    case Err(e) => Err(e)
    case Ok(h) =>
      match ReadTransactions(db, id, 0, h.numTransactions)
      case Err(e) => Err(e)
      case Ok(infos) => Ok(Api.BlockBody(hc, Block(h, infos)))
  }

  // ---------------------------------------------------------------------
  // setBlock and removeBlockWalletTransactions

  /** The txid the wallet index uses: the transaction's content hash. The
      store's operations take it as a parameter, so what they promise holds
      for every hash function. */
  type TxIdOf = Transaction.Transaction -> Hash

  function TxIds(c: Transaction.TxCrypto): (txid: TxIdOf)
    ensures forall t :: txid(t) == Transaction.HashContents(c, t)
  {
    t => Transaction.HashContents(c, t)
  }

  /** The two wallet index keys of one transaction. */
  function WalletKeysOf(txid: TxIdOf, t: Transaction.Transaction): set<seq<byte>> {
    {WalletKey(t.from, txid(t)), WalletKey(t.to, txid(t))}
  }

  /** The wallet keys of transactions i, i + 1, ... */
  function WalletKeysFrom(txid: TxIdOf, txs: seq<Transaction.Transaction>, i: nat): (r: set<seq<byte>>)
    ensures forall k :: k in r ==> |k| == 57
    decreases |txs| - i
  {
    if i >= |txs| then {} else WalletKeysOf(txid, txs[i]) + WalletKeysFrom(txid, txs, i + 1)
  }

  function AllWalletKeys(txid: TxIdOf, txs: seq<Transaction.Transaction>): (r: set<seq<byte>>)
    ensures forall k :: k in r ==> |k| == 57
  {
    WalletKeysFrom(txid, txs, 0)
  }

  /** A key is a wallet key of the block exactly when it is a wallet key
      of one of its transactions. */
  lemma {:induction false} WalletKeysFromMembers(txid: TxIdOf, txs: seq<Transaction.Transaction>, i: nat, k: seq<byte>)
    ensures k in WalletKeysFrom(txid, txs, i) <==> exists j :: i <= j < |txs| && k in WalletKeysOf(txid, txs[j])
    decreases |txs| - i
  {
    if i < |txs| {
      WalletKeysFromMembers(txid, txs, i + 1, k);
    }
  }

  lemma AllWalletKeysMembers(txid: TxIdOf, txs: seq<Transaction.Transaction>, k: seq<byte>)
    ensures k in AllWalletKeys(txid, txs) <==> exists j :: 0 <= j < |txs| && k in WalletKeysOf(txid, txs[j])
  {
    WalletKeysFromMembers(txid, txs, 0, k);
  }

  /** The transaction keys (id, lo) .. (id, hi - 1). */
  function TxKeys(id: u32, lo: nat, hi: nat): (r: set<seq<byte>>)
    ensures forall k :: k in r ==> |k| == 8
  {
    set j: u32 | lo <= j < hi :: TxKey(id, j)
  }

  lemma TxKeysStep(id: u32, lo: nat, hi: nat)
    requires lo < hi <= U32_LIMIT
    ensures TxKeys(id, lo, hi) == {TxKey(id, lo)} + TxKeys(id, lo + 1, hi)
    ensures TxKey(id, lo) !in TxKeys(id, lo + 1, hi)
  {
    if TxKey(id, lo) in TxKeys(id, lo + 1, hi) {
      var j: u32 :| lo + 1 <= j < hi && TxKey(id, j) == TxKey(id, lo);
      KeysDistinct(id, id, j, lo, NULL_ADDRESS, NULL_ADDRESS, NULL_HASH, NULL_HASH);
    }
  }

  lemma TxKeysMember(id: u32, lo: nat, hi: nat, j: u32)
    requires lo <= j < hi
    ensures TxKey(id, j) in TxKeys(id, lo, hi)
  {
  }

  /** The loop of setBlock from transaction `i` on. */
  function PutTransactions(txid: TxIdOf, db: DB, id: u32, txs: seq<Transaction.Transaction>, i: nat): DB
    requires i <= |txs| < U32_LIMIT
    decreases |txs| - i
  {
    if i == |txs| then db
    else
      var t := txs[i];
      var h := txid(t);
      var next := db[TxKey(id, i) := TxValue(t)][WalletKey(t.from, h) := Raw([])]
                    [WalletKey(t.to, h) := Raw([])];
      PutTransactions(txid, next, id, txs, i + 1)
  }

  /** The keys present after the loop. */
  lemma {:induction false} PutDomain(txid: TxIdOf, db: DB, id: u32, txs: seq<Transaction.Transaction>, i: nat)
    requires i <= |txs| < U32_LIMIT
    ensures PutTransactions(txid, db, id, txs, i).Keys == db.Keys + WalletKeysFrom(txid, txs, i) + TxKeys(id, i, |txs|)
    decreases |txs| - i
  {
    if i < |txs| {
      var t := txs[i];
      var h := txid(t);
      var next := db[TxKey(id, i) := TxValue(t)][WalletKey(t.from, h) := Raw([])]
                    [WalletKey(t.to, h) := Raw([])];
      TxKeysStep(id, i, |txs|);
      PutDomain(txid, next, id, txs, i + 1);
    }
  }

  /** A key the loop does not write keeps its value. */
  lemma {:induction false} PutKeeps(txid: TxIdOf, db: DB, id: u32, txs: seq<Transaction.Transaction>, i: nat,
                                     k: seq<byte>)
    requires i <= |txs| < U32_LIMIT
    requires k in db && k !in WalletKeysFrom(txid, txs, i) && k !in TxKeys(id, i, |txs|)
    ensures k in PutTransactions(txid, db, id, txs, i) && PutTransactions(txid, db, id, txs, i)[k] == db[k]
    decreases |txs| - i
  {
    if i < |txs| {
      var t := txs[i];
      var h := txid(t);
      var next := db[TxKey(id, i) := TxValue(t)][WalletKey(t.from, h) := Raw([])]
                    [WalletKey(t.to, h) := Raw([])];
      TxKeysStep(id, i, |txs|);
      assert k in next && next[k] == db[k];
      PutKeeps(txid, next, id, txs, i + 1, k);
    }
  }

  /** Transaction `j` ends up under (id, j). */
  lemma {:induction false} PutTxValue(txid: TxIdOf, db: DB, id: u32, txs: seq<Transaction.Transaction>, i: nat,
                                       j: nat)
    requires i <= j < |txs| < U32_LIMIT
    ensures TxKey(id, j) in PutTransactions(txid, db, id, txs, i)
    ensures PutTransactions(txid, db, id, txs, i)[TxKey(id, j)] == TxValue(txs[j])
    decreases |txs| - i
  {
    var t := txs[i];
    var h := txid(t);
    var next := db[TxKey(id, i) := TxValue(t)][WalletKey(t.from, h) := Raw([])]
                  [WalletKey(t.to, h) := Raw([])];
    TxKeysStep(id, i, |txs|);
    if j == i {
      assert next[TxKey(id, i)] == TxValue(t);
      PutKeeps(txid, next, id, txs, i + 1, TxKey(id, i));
    } else {
      PutTxValue(txid, next, id, txs, i + 1, j);
    }
  }

  /** Every wallet key of the remaining transactions ends up empty. */
  lemma {:induction false} PutWalletValue(txid: TxIdOf, db: DB, id: u32, txs: seq<Transaction.Transaction>,
                                           i: nat, k: seq<byte>)
    requires i <= |txs| < U32_LIMIT
    requires k in WalletKeysFrom(txid, txs, i)
    ensures k in PutTransactions(txid, db, id, txs, i) && PutTransactions(txid, db, id, txs, i)[k] == Raw([])
    decreases |txs| - i
  {
    var t := txs[i];
    var h := txid(t);
    var next := db[TxKey(id, i) := TxValue(t)][WalletKey(t.from, h) := Raw([])]
                  [WalletKey(t.to, h) := Raw([])];
    TxKeysStep(id, i, |txs|);
    if k in WalletKeysFrom(txid, txs, i + 1) {
      PutWalletValue(txid, next, id, txs, i + 1, k);
    } else {
      PutOwnWalletKey(txid, db, id, txs, i, k);
    }
  }

  /** A wallet key of transaction i that no later transaction writes. */
  lemma PutOwnWalletKey(txid: TxIdOf, db: DB, id: u32, txs: seq<Transaction.Transaction>, i: nat, k: seq<byte>)
    requires i < |txs| < U32_LIMIT
    requires k in WalletKeysOf(txid, txs[i]) && k !in WalletKeysFrom(txid, txs, i + 1)
    ensures k in PutTransactions(txid, db, id, txs, i) && PutTransactions(txid, db, id, txs, i)[k] == Raw([])
  {
    var t := txs[i];
    var h := txid(t);
    var next := db[TxKey(id, i) := TxValue(t)][WalletKey(t.from, h) := Raw([])]
                  [WalletKey(t.to, h) := Raw([])];
    assert |k| == 57 && |TxKey(id, i)| == 8;
    assert k in next && next[k] == Raw([]);
    TxKeysStep(id, i, |txs|);
    PutKeeps(txid, next, id, txs, i + 1, k);
  }

  /** setBlock: the header under the block id, each transaction under
      (id, i), and an empty value under from‖txid and to‖txid, where the
      txid is hashContents. Nothing else changes. The values written under
      the transaction and wallet keys are stated by SetBlockWrites. */
  function SetBlock(txid: TxIdOf, db: DB, b: Block): (r: DB)
    requires |b.transactions| < U32_LIMIT
    ensures BlockKey(b.header.id) in r && r[BlockKey(b.header.id)] == HeaderValue(b.header)
    ensures r.Keys ==
      db.Keys + {BlockKey(b.header.id)} + AllWalletKeys(txid, b.transactions) + TxKeys(b.header.id, 0, |b.transactions|)
  {
    var start := db[BlockKey(b.header.id) := HeaderValue(b.header)];
    PutKeeps(txid, start, b.header.id, b.transactions, 0, BlockKey(b.header.id));
    PutDomain(txid, start, b.header.id, b.transactions, 0);
    PutTransactions(txid, start, b.header.id, b.transactions, 0)
  }

  /** setBlock changes no key other than the ones it writes. */
  lemma SetBlockKeeps(txid: TxIdOf, db: DB, b: Block, k: seq<byte>)
    requires |b.transactions| < U32_LIMIT
    requires k in db && k != BlockKey(b.header.id) && k !in AllWalletKeys(txid, b.transactions)
    requires k !in TxKeys(b.header.id, 0, |b.transactions|)
    ensures k in SetBlock(txid, db, b) && SetBlock(txid, db, b)[k] == db[k]
  {
    var start := db[BlockKey(b.header.id) := HeaderValue(b.header)];
    PutKeeps(txid, start, b.header.id, b.transactions, 0, k);
  }

  /** Transaction j of the block is stored under (id, j), and every wallet
      key of the block holds the empty value. */
  lemma SetBlockWrites(txid: TxIdOf, db: DB, b: Block)
    requires |b.transactions| < U32_LIMIT
    ensures var r := SetBlock(txid, db, b);
      && (forall j :: 0 <= j < |b.transactions| ==>
            TxKey(b.header.id, j) in r && r[TxKey(b.header.id, j)] == TxValue(b.transactions[j]))
      && (forall k :: k in AllWalletKeys(txid, b.transactions) ==> k in r && r[k] == Raw([]))
  {
    var start := db[BlockKey(b.header.id) := HeaderValue(b.header)];
    PutFromStart(txid, start, b.header.id, b.transactions);
  }

  /** The loop's writes, from its first iteration on. */
  lemma PutFromStart(txid: TxIdOf, db: DB, id: u32, txs: seq<Transaction.Transaction>)
    requires |txs| < U32_LIMIT
    ensures var r := PutTransactions(txid, db, id, txs, 0);
      && (forall j :: 0 <= j < |txs| ==> TxKey(id, j) in r && r[TxKey(id, j)] == TxValue(txs[j]))
      && (forall k :: k in AllWalletKeys(txid, txs) ==> k in r && r[k] == Raw([]))
  {
    var r := PutTransactions(txid, db, id, txs, 0);
    forall j | 0 <= j < |txs| ensures TxKey(id, j) in r && r[TxKey(id, j)] == TxValue(txs[j]) {
      PutTxValue(txid, db, id, txs, 0, j);
    }
    forall k | k in AllWalletKeys(txid, txs) ensures k in r && r[k] == Raw([]) {
      PutWalletValue(txid, db, id, txs, 0, k);
    }
  }

  /** removeBlockWalletTransactions: delete both wallet keys of every
      transaction, in order. */
  function RemoveBlockWalletTransactions(txid: TxIdOf, db: DB, txs: seq<Transaction.Transaction>)
    : (r: DB)
    ensures r == db - AllWalletKeys(txid, txs)
  {
    RemoveWalletKeysFrom(txid, db, txs, 0)
  }

  /** The loop of removeBlockWalletTransactions from transaction `i` on. */
  function RemoveWalletKeysFrom(txid: TxIdOf, db: DB, txs: seq<Transaction.Transaction>, i: nat): (r: DB)
    ensures r == db - WalletKeysFrom(txid, txs, i)
    decreases |txs| - i
  {
    if i >= |txs| then db
    else
      var t := txs[i];
      var h := txid(t);
      RemoveWalletKeysFrom(txid, db - {WalletKey(t.from, h)} - {WalletKey(t.to, h)}, txs, i + 1)
  }

  /** The wallet index: the 57-byte keys. */
  function WalletIndex(db: DB): (r: DB)
    ensures forall k :: k in r <==> k in db && |k| == 57
    ensures forall k :: k in r ==> r[k] == db[k]
  {
    map k | k in db && |k| == 57 :: db[k]
  }

  /** Storing a block and then removing its wallet entries restores the
      wallet index, provided none of those entries existed before. */
  lemma SetThenRemoveRestoresWallets(txid: TxIdOf, db: DB, b: Block)
    requires |b.transactions| < U32_LIMIT
    requires forall k :: k in AllWalletKeys(txid, b.transactions) ==> k !in db
    ensures WalletIndex(RemoveBlockWalletTransactions(txid, SetBlock(txid, db, b), b.transactions)) == WalletIndex(db)
  {
    var w := AllWalletKeys(txid, b.transactions);
    var t := SetBlock(txid, db, b) - w;
    assert RemoveBlockWalletTransactions(txid, SetBlock(txid, db, b), b.transactions) == t;
    forall k | |k| == 57 ensures (k in t <==> k in db) && (k in db ==> t[k] == db[k]) {
      if k !in w {
        SetBlockKeepsWalletKey(txid, db, b, k);
      }
    }
    SameWalletIndex(t, db);
  }

  lemma SameWalletIndex(a: DB, b: DB)
    requires forall k :: |k| == 57 ==> (k in a <==> k in b) && (k in b ==> a[k] == b[k])
    ensures WalletIndex(a) == WalletIndex(b)
  {
    assert WalletIndex(a).Keys == WalletIndex(b).Keys;
  }

  /** A wallet key setBlock does not write is present after it exactly
      when before, with the same value. */
  lemma SetBlockKeepsWalletKey(txid: TxIdOf, db: DB, b: Block, k: seq<byte>)
    requires |b.transactions| < U32_LIMIT
    requires |k| == 57 && k !in AllWalletKeys(txid, b.transactions)
    ensures k in SetBlock(txid, db, b) <==> k in db
    ensures k in db ==> SetBlock(txid, db, b)[k] == db[k]
  {
    assert k != BlockKey(b.header.id) && k !in TxKeys(b.header.id, 0, |b.transactions|);
    if k in db {
      SetBlockKeeps(txid, db, b, k);
    }
  }

  /** After setBlock, getBlockTransactions on the stored header reads the
      block's transactions back in order. */
  lemma SetThenReadTransactions(txid: TxIdOf, db: DB, b: Block)
    requires |b.transactions| < U32_LIMIT && CountsTransactions(b)
    ensures GetBlockTransactions(SetBlock(txid, db, b), b.header) == Ok(b.transactions)
  {
    var s := SetBlock(txid, db, b);
    SetBlockWrites(txid, db, b);
    var n := b.header.numTransactions;
    var r := ReadTransactions(s, b.header.id, 0, n);
    assert r.Ok?;
    forall j | 0 <= j < |b.transactions| ensures r.value[j] == b.transactions[j] {
      assert r.value[j - 0] == s[TxKey(b.header.id, j)].info;
    }
    assert r.value == b.transactions;
  }

  /** Block `b` is in the store: its header under its id and each of its
      transactions under (id, j). */
  ghost predicate Stores(db: DB, b: Block) {
    && |b.transactions| < U32_LIMIT && CountsTransactions(b)
    && BlockKey(b.header.id) in db && db[BlockKey(b.header.id)] == HeaderValue(b.header)
    && forall j :: 0 <= j < |b.transactions| ==>
         TxKey(b.header.id, j) in db && db[TxKey(b.header.id, j)] == TxValue(b.transactions[j])
  }

  /** getBlock finds a stored block under its id, with its header. */
  lemma StoredBlockReads(db: DB, b: Block)
    requires Stores(db, b)
    ensures GetBlock(db, b.header.id).Ok? && GetBlock(db, b.header.id).value.header == b.header
  {
    assert GetBlockHeader(db, b.header.id) == Ok(b.header);
    assert ReadTransactions(db, b.header.id, 0, b.header.numTransactions).Ok?;
  }

  /** setBlock stores the block it is given. */
  lemma SetBlockStores(txid: TxIdOf, db: DB, b: Block)
    requires |b.transactions| < U32_LIMIT && CountsTransactions(b)
    ensures Stores(SetBlock(txid, db, b), b)
  {
    SetBlockWrites(txid, db, b);
  }

  /** setBlock of a block with another id leaves a stored block stored. */
  lemma SetBlockKeepsStored(txid: TxIdOf, db: DB, b: Block, other: Block)
    requires |b.transactions| < U32_LIMIT
    requires Stores(db, other) && other.header.id != b.header.id
    ensures Stores(SetBlock(txid, db, b), other)
  {
    var id := other.header.id;
    KeysDistinct(id, b.header.id, 0, 0, NULL_ADDRESS, NULL_ADDRESS, NULL_HASH, NULL_HASH);
    SetBlockKeeps(txid, db, b, BlockKey(id));
    forall j | 0 <= j < |other.transactions|
      ensures TxKey(id, j) in SetBlock(txid, db, b)
      ensures SetBlock(txid, db, b)[TxKey(id, j)] == TxValue(other.transactions[j])
    {
      if TxKey(id, j) in TxKeys(b.header.id, 0, |b.transactions|) {
        var i: u32 :| 0 <= i < |b.transactions| && TxKey(b.header.id, i) == TxKey(id, j);
        KeysDistinct(id, b.header.id, j, i, NULL_ADDRESS, NULL_ADDRESS, NULL_HASH, NULL_HASH);
      }
      SetBlockKeeps(txid, db, b, TxKey(id, j));
    }
  }

  /** Writing the count or the work leaves a stored block stored. */
  lemma CountAndWorkKeepStored(db: DB, b: Block, count: u64, work: nat)
    requires Stores(db, b)
    ensures Stores(SetBlockCount(db, count), b) && Stores(SetTotalWork(db, work), b)
  {
  }

  /** After setBlock, /sync serves the block exactly as submitBlock frames
      it. */
  lemma SetThenRawData(txid: TxIdOf, hc: HeaderCodec, db: DB, b: Block)
    requires FixedSize(hc)
    requires |b.transactions| < U32_LIMIT && CountsTransactions(b)
    ensures GetRawData(SetBlock(txid, db, b), hc, b.header.id) == Ok(Api.BlockBody(hc, b))
  {
    SetThenReadTransactions(txid, db, b);
  }

  /** setBlock keeps the key schema. */
  lemma SetBlockWellFormed(txid: TxIdOf, db: DB, b: Block)
    requires |b.transactions| < U32_LIMIT && WellFormed(db)
    ensures WellFormed(SetBlock(txid, db, b))
  {
  }

  // ---------------------------------------------------------------------
  // getTransactionsForWallet

  function ByteLess(a: byte, b: byte): bool { a < b }

  lemma ByteLessIsStrictTotal()
    ensures LexOrder.StrictTotalOrder(ByteLess)
  {
  }

  predicate KeyLess(a: seq<byte>, b: seq<byte>) {
    LexOrder.LexLess(a, b, ByteLess)
  }

  function Repeat(b: byte, n: nat): (r: seq<byte>)
    ensures |r| == n && forall i :: 0 <= i < n ==> r[i] == b
  {
    if n == 0 then [] else [b] + Repeat(b, n - 1)
  }

  const NO_TXID: Hash := Repeat(0, 32)
  const LAST_TXID: Hash := Repeat(0xFF, 32)

  /** The iterator's half-open range [w‖0^32, w‖FF^32). */
  predicate InRange(k: seq<byte>, w: Address) {
    !KeyLess(k, WalletKey(w, NO_TXID)) && KeyLess(k, WalletKey(w, LAST_TXID))
  }

  lemma {:induction false} NothingBelowZeros(t: seq<byte>, z: seq<byte>)
    requires |z| == |t| && forall i :: 0 <= i < |z| ==> z[i] == 0
    ensures !KeyLess(t, z)
    decreases |t|
  {
    if |t| > 0 {
      NothingBelowZeros(t[1..], z[1..]);
    }
  }

  lemma {:induction false} BelowAllOnes(t: seq<byte>, f: seq<byte>)
    requires |f| == |t| && forall i :: 0 <= i < |f| ==> f[i] == 0xFF
    ensures KeyLess(t, f) <==> t != f
    decreases |t|
  {
    if |t| > 0 {
      BelowAllOnes(t[1..], f[1..]);
      assert t == [t[0]] + t[1..] && f == [f[0]] + f[1..];
    }
  }

  /** When a key is not an extension of `p`, its first difference from `p`
      decides its order against every extension of `p`. */
  lemma {:induction false} DiffersFromPrefix(k: seq<byte>, p: seq<byte>, x: seq<byte>, y: seq<byte>)
    requires |k| >= |p| ==> k[..|p|] != p
    requires |k| < |p| ==> k != p[..|k|]
    ensures KeyLess(k, p + x) <==> KeyLess(k, p + y)
    decreases |p|
  {
    assert |p| > 0;
    if |k| == 0 {
    } else if k[0] != p[0] {
      assert (p + x)[0] == p[0] && (p + y)[0] == p[0];
    } else {
      assert (p + x)[1..] == p[1..] + x && (p + y)[1..] == p[1..] + y;
      if |k| >= |p| {
        assert k[..|p|] == [k[0]] + k[1..][..|p| - 1];
        assert p == [p[0]] + p[1..];
      } else {
        assert k == [k[0]] + k[1..];
        assert p[..|k|] == [p[0]] + p[1..][..|k| - 1];
      }
      DiffersFromPrefix(k[1..], p[1..], x, y);
    }
  }

  /** A key that is a proper prefix of `p` sorts before every extension of it. */
  lemma ShortPrefixBelow(k: seq<byte>, p: seq<byte>, x: seq<byte>)
    requires |k| < |p| && k == p[..|k|]
    ensures KeyLess(k, p + x)
  {
    LexOrder.LexPrefixFirst(k, p + x, ByteLess);
  }

  /** The key schema: in a well-formed store, exactly the wallet entries
      of `w` lie in the scanned range, all but one whose txid is all 0xFF;
      no block, transaction, count or work key does. */
  lemma RangeSchema(k: seq<byte>, w: Address)
    requires KeyShape(k)
    ensures InRange(k, w) <==> |k| == 57 && k[..25] == w && k[25..] != LAST_TXID
  {
    var lo := WalletKey(w, NO_TXID);
    var hi := WalletKey(w, LAST_TXID);
    if |k| < 25 {
      if k == w[..|k|] {
        ShortPrefixBelow(k, w, NO_TXID);
      } else {
        DiffersFromPrefix(k, w, NO_TXID, LAST_TXID);
      }
    } else if k[..25] != w {
      DiffersFromPrefix(k, w, NO_TXID, LAST_TXID);
    } else {
      var t := k[25..];
      assert k == w + t;
      LexOrder.LexCommonPrefix(w, t, NO_TXID, ByteLess);
      LexOrder.LexCommonPrefix(w, t, LAST_TXID, ByteLess);
      NothingBelowZeros(t, NO_TXID);
      BelowAllOnes(t, LAST_TXID);
    }
  }

  /** The keys the wallet scan visits. */
  ghost function ScanRange(db: DB, w: Address): set<seq<byte>> {
    set k | k in db && InRange(k, w)
  }

  lemma ScanKeysShape(db: DB, w: Address, keys: seq<seq<byte>>)
    requires WellFormed(db)
    requires forall x :: x in keys ==> x in ScanRange(db, w)
    ensures forall i :: 0 <= i < |keys| ==> |keys[i]| == 57 && keys[i][..25] == w
  {
    forall i | 0 <= i < |keys| ensures |keys[i]| == 57 && keys[i][..25] == w {
      assert keys[i] in ScanRange(db, w);
      RangeSchema(keys[i], w);
    }
  }

  lemma ScanMembers(db: DB, w: Address, keys: seq<seq<byte>>, r: seq<Hash>)
    requires WellFormed(db)
    requires forall x :: x in keys <==> x in ScanRange(db, w)
    requires |r| == |keys| && forall i :: 0 <= i < |keys| ==> keys[i] == w + r[i]
    ensures forall t: Hash :: t in r <==> WalletKey(w, t) in db && t != LAST_TXID
  {
    forall t: Hash ensures t in r <==> WalletKey(w, t) in db && t != LAST_TXID {
      RangeSchema(WalletKey(w, t), w);
      if t in r {
        var i :| 0 <= i < |r| && r[i] == t;
        assert keys[i] in ScanRange(db, w);
      }
      if WalletKey(w, t) in db && t != LAST_TXID {
        assert WalletKey(w, t) in ScanRange(db, w);
        var i :| 0 <= i < |keys| && keys[i] == WalletKey(w, t);
        assert w + r[i] == w + t;
        assert r[i] == (w + r[i])[25..];
      }
    }
  }

  lemma ScanOrder(w: Address, keys: seq<seq<byte>>, r: seq<Hash>)
    requires LexOrder.StrictlyAscending(keys, ByteLess)
    requires |r| == |keys| && forall i :: 0 <= i < |keys| ==> keys[i] == w + r[i]
    ensures forall i, j :: 0 <= i < j < |r| ==> KeyLess(r[i], r[j])
  {
    forall i, j | 0 <= i < j < |r| ensures KeyLess(r[i], r[j]) {
      LexOrder.LexCommonPrefix(w, r[i], r[j], ByteLess);
    }
  }

  /** The txid part of each scanned key. */
  function Suffixes(keys: seq<seq<byte>>, w: Address): (r: seq<Hash>)
    requires forall i :: 0 <= i < |keys| ==> |keys[i]| == 57 && keys[i][..25] == w
    ensures |r| == |keys| && forall i :: 0 <= i < |keys| ==> keys[i] == w + r[i]
  {
    if |keys| == 0 then []
    else
      assert keys[0] == keys[0][..25] + keys[0][25..];
      [keys[0][25..]] + Suffixes(keys[1..], w)
  }

  /** getTransactionsForWallet: the txids of the keys in the range, in
      ascending key order. */
  ghost function GetTransactionsForWallet(db: DB, w: Address): (r: seq<Hash>)
    requires WellFormed(db)
    ensures forall t: Hash :: t in r <==> WalletKey(w, t) in db && t != LAST_TXID
    ensures forall i, j :: 0 <= i < j < |r| ==> KeyLess(r[i], r[j])
  {
    ByteLessIsStrictTotal();
    var keys := LexOrder.Enumerate(ScanRange(db, w), ByteLess);
    ScanKeysShape(db, w, keys);
    var r := Suffixes(keys, w);
    ScanMembers(db, w, keys, r);
    ScanOrder(w, keys, r);
    r
  }
}
