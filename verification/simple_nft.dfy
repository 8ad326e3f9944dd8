/** The sample NFT contract (src/wasm/simple_nft.cpp): `executeBlock` reads
    a block from its argument buffer and updates the contract's key-value
    store. The store belongs to the host that runs the contract, which is
    not part of this model; it is represented here by two maps. */
module SimpleNft {
  import opened Types
  import opened Wrappers
  import opened Blocks
  import Transaction
  import Api

  /** The size of a transaction record, TRANSACTIONINFO_BUFFER_SIZE, written
      out so that offsets stay linear arithmetic. */
  const TX_SIZE: nat := 309
  const OWNER_KEY: string := "owner"
  const CONTENT_KEY: string := "content"

  /** The statuses this contract sets. */
  datatype ExecutionStatus = Success | InvalidSignature | BalanceTooLow

  /** The contract's store: wallet entries, hash entries, and what the host
      answers for a wallet key never set. */
  datatype ContractStore = ContractStore(
    wallets: map<string, Address>,
    hashes: map<string, Hash>,
    unsetWallet: Address)

  function GetWallet(s: ContractStore, key: string): Address {
    if key in s.wallets then s.wallets[key] else s.unsetWallet
  }

  /** setWallet: the entry is replaced and nothing else changes. */
  function SetWallet(s: ContractStore, key: string, a: Address): (r: ContractStore)
    ensures GetWallet(r, key) == a
    ensures forall k :: k != key ==> GetWallet(r, k) == GetWallet(s, k)
    ensures r.hashes == s.hashes
  {
    s.(wallets := s.wallets[key := a])
  }

  /** setSha256: the entry is replaced and nothing else changes. */
  function SetSha256(s: ContractStore, key: string, h: Hash): (r: ContractStore)
    ensures key in r.hashes && r.hashes[key] == h
    ensures forall k :: k != key && k in s.hashes ==> k in r.hashes && r.hashes[k] == s.hashes[k]
    ensures forall k :: k in r.hashes ==> k == key || k in s.hashes
    ensures forall k :: GetWallet(r, k) == GetWallet(s, k)
  {
    s.(hashes := s.hashes[key := h])
  }

  /** What one run leaves behind: the store, and the status handed to
      `setReturnValue`, if any. */
  datatype Outcome = Outcome(store: ContractStore, returned: Option<ExecutionStatus>)

  // ---------------------------------------------------------------------
  // Reading the argument buffer (lines 21-34)

  /** The buffer holds a header record and every transaction it counts.
      The source reads that much without checking. */
  predicate Fits(hc: HeaderCodec, args: seq<byte>) {
    && hc.size <= |args|
    && hc.size + hc.decode(args[..hc.size]).numTransactions * TX_SIZE <= |args|
  }

  /** `n` records read from offset `start` on, each 309 bytes after the
      last. */
  function ReadTransactions(args: seq<byte>, start: nat, n: nat, walletFromKey: PublicKey -> Address)
    : (txs: seq<Transaction.Transaction>)
    requires start + n * TX_SIZE <= |args|
    ensures |txs| == n
    ensures forall i :: 0 <= i < n ==>
      txs[i] == Transaction.Decode(args[start + i * TX_SIZE..start + i * TX_SIZE + TX_SIZE], walletFromKey)
    decreases n
  {
    if n == 0 then []
    else
      var prev := ReadTransactions(args, start, n - 1, walletFromKey);
      var last := start + (n - 1) * TX_SIZE;
      prev + [Transaction.Decode(args[last..last + TX_SIZE], walletFromKey)]
  }

  /** Lines 23-34: the header at the front, transaction `i` at offset
      header size + i * 309. */
  function ReadBlock(hc: HeaderCodec, args: seq<byte>, walletFromKey: PublicKey -> Address): (b: Block)
    requires Fits(hc, args)
    ensures b.header == hc.decode(args[..hc.size])
    ensures CountsTransactions(b)
    ensures forall i :: 0 <= i < |b.transactions| ==>
      b.transactions[i] == Transaction.Decode(args[hc.size + i * TX_SIZE..hc.size + i * TX_SIZE + TX_SIZE], walletFromKey)
  {
    var h := hc.decode(args[..hc.size]);
    Block(h, ReadTransactions(args, hc.size, h.numTransactions as nat, walletFromKey))
  }

  /** A buffer laid out as the node lays out a block is read back as that
      block, each sender re-derived from its signing key. */
  lemma ReadBlockRoundTrip(hc: HeaderCodec, b: Block, walletFromKey: PublicKey -> Address)
    requires ValidCodec(hc) && CountsTransactions(b) && Representable(hc, b.header)
    ensures Fits(hc, Api.BlockBody(hc, b))
    ensures ReadBlock(hc, Api.BlockBody(hc, b), walletFromKey)
         == Block(b.header, Api.DecodedTransactions(b.transactions, walletFromKey))
  {
    var args := Api.BlockBody(hc, b);
    assert hc.decode(args[..hc.size]) == b.header;
    assert Fits(hc, args) by {
      assert b.header.numTransactions * TX_SIZE == TX_SIZE * b.header.numTransactions;
    }
    var r := ReadBlock(hc, args, walletFromKey);
    forall i | 0 <= i < |b.transactions|
      ensures r.transactions[i] == Transaction.AsDecoded(b.transactions[i], walletFromKey)
    {
      ReadRecord(hc, b, walletFromKey, i);
    }
  }

  lemma ReadRecord(hc: HeaderCodec, b: Block, walletFromKey: PublicKey -> Address, i: nat)
    requires ValidCodec(hc) && CountsTransactions(b) && Representable(hc, b.header) && i < |b.transactions|
    requires Fits(hc, Api.BlockBody(hc, b))
    ensures ReadBlock(hc, Api.BlockBody(hc, b), walletFromKey).transactions[i]
         == Transaction.AsDecoded(b.transactions[i], walletFromKey)
  {
    var args := Api.BlockBody(hc, b);
    assert TX_SIZE * i == i * TX_SIZE;
    assert args[hc.size + i * TX_SIZE..hc.size + i * TX_SIZE + TX_SIZE] == Transaction.Encode(b.transactions[i]);
    Transaction.DecodeEncode(b.transactions[i], walletFromKey);
  }

  // ---------------------------------------------------------------------
  // Executing the block (lines 38-71)

  /** Lines 50-70, with the condition of line 57 as `signatureFails`; the
      source fixes it to `true`. A transaction from the current owner
      would move ownership to its recipient (line 63) if that condition
      were false; any other transaction stops the run with
      BALANCE_TOO_LOW. */
  function RunTransactions(s: ContractStore, txs: seq<Transaction.Transaction>, signatureFails: bool)
    : (r: Outcome)
    ensures signatureFails ==> r.store == s
    ensures signatureFails ==> (r.returned.None? <==> |txs| == 0)
    ensures GetWallet(r.store, OWNER_KEY) == GetWallet(s, OWNER_KEY)
      || exists i :: 0 <= i < |txs| && GetWallet(r.store, OWNER_KEY) == txs[i].to
    ensures forall k :: k != OWNER_KEY ==> GetWallet(r.store, k) == GetWallet(s, k)
    ensures r.store.hashes == s.hashes && r.store.unsetWallet == s.unsetWallet
    decreases |txs|
  {
    if |txs| == 0 then Outcome(s, None)
    else if GetWallet(s, OWNER_KEY) == txs[0].from then
      if signatureFails then Outcome(s, Some(InvalidSignature))
      else
        var r := RunTransactions(SetWallet(s, OWNER_KEY, txs[0].to), txs[1..], signatureFails);
        assert forall i :: 0 <= i < |txs| - 1 ==> txs[1..][i] == txs[i + 1];
        r
    else Outcome(s, Some(BalanceTooLow))
  }

  /** executeBlock on an argument buffer. */
  function ExecuteBlock(hc: HeaderCodec, walletFromKey: PublicKey -> Address, s: ContractStore, args: seq<byte>)
    : (r: Outcome)
    requires Fits(hc, args)
    ensures hc.decode(args[..hc.size]).id == 1 ==>
      && GetWallet(r.store, OWNER_KEY) == NULL_ADDRESS
      && CONTENT_KEY in r.store.hashes && r.store.hashes[CONTENT_KEY] == NULL_HASH
      && r.returned == Some(Success)
    ensures hc.decode(args[..hc.size]).id != 1 ==> r.store == s
    ensures hc.decode(args[..hc.size]).id != 1 ==>
      (r.returned.None? <==> hc.decode(args[..hc.size]).numTransactions == 0)
  {
    var b := ReadBlock(hc, args, walletFromKey);
    if b.header.id == 1 then
      Outcome(SetSha256(SetWallet(s, OWNER_KEY, NULL_ADDRESS), CONTENT_KEY, NULL_HASH), Some(Success))
    else
      RunTransactions(s, b.transactions, true)
  }

  /** The genesis block writes the two records, both null, and touches no
      other key. */
  lemma GenesisRecord(hc: HeaderCodec, walletFromKey: PublicKey -> Address, s: ContractStore, args: seq<byte>)
    requires Fits(hc, args) && hc.decode(args[..hc.size]).id == 1
    ensures var r := ExecuteBlock(hc, walletFromKey, s, args);
      && (forall k :: k != OWNER_KEY ==> GetWallet(r.store, k) == GetWallet(s, k))
      && (forall k :: k != CONTENT_KEY && k in s.hashes ==> k in r.store.hashes && r.store.hashes[k] == s.hashes[k])
      && (forall k :: k in r.store.hashes ==> k == CONTENT_KEY || k in s.hashes)
  {
  }

  /** Any other block is decided by its first transaction: INVALID_SIGNATURE
      when it comes from the owner, BALANCE_TOO_LOW otherwise. */
  lemma FirstTransactionDecides(hc: HeaderCodec, walletFromKey: PublicKey -> Address, s: ContractStore,
                                args: seq<byte>)
    requires Fits(hc, args)
    requires hc.decode(args[..hc.size]).id != 1 && hc.decode(args[..hc.size]).numTransactions > 0
    ensures hc.size + TX_SIZE <= |args|
    ensures var first := Transaction.Decode(args[hc.size..hc.size + TX_SIZE], walletFromKey);
      ExecuteBlock(hc, walletFromKey, s, args).returned
        == Some(if first.from == GetWallet(s, OWNER_KEY) then InvalidSignature else BalanceTooLow)
  {
    var b := ReadBlock(hc, args, walletFromKey);
    assert b.transactions[0] == Transaction.Decode(args[hc.size..hc.size + TX_SIZE], walletFromKey);
  }

  /** Were the signature check of line 57 to pass, a block whose
      transactions each come from the owner the one before made would hand
      ownership down the line to the last recipient. */
  lemma {:induction false} OwnershipChain(s: ContractStore, txs: seq<Transaction.Transaction>)
    requires |txs| > 0 && txs[0].from == GetWallet(s, OWNER_KEY)
    requires forall i :: 0 < i < |txs| ==> txs[i].from == txs[i - 1].to
    ensures RunTransactions(s, txs, false) == Outcome(SetWallet(s, OWNER_KEY, txs[|txs| - 1].to), None)
    decreases |txs|
  {
    var s1 := SetWallet(s, OWNER_KEY, txs[0].to);
    if |txs| > 1 {
      OwnershipChain(s1, txs[1..]);
      assert SetWallet(s1, OWNER_KEY, txs[|txs| - 1].to) == SetWallet(s, OWNER_KEY, txs[|txs| - 1].to);
    }
  }
}
