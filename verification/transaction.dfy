/** A transaction: its 309-byte wire record, the timestamp sentinels that
    classify it, the bytes fed to its hashes, its equality and its JSON form
    (src/core/transaction.cpp, src/core/transaction.hpp). */
module Transaction {
  import opened Types
  import opened Wrappers

  /** LAYER_2_TX_FLAG is -1 stored in an unsigned 64-bit timestamp. */
  const LAYER_2_TX_FLAG: u64 := U64_LIMIT - 1
  /** PROGRAM_CREATE_TX_FLAG is -2 stored in an unsigned 64-bit timestamp. */
  const PROGRAM_CREATE_TX_FLAG: u64 := U64_LIMIT - 2
  const TRANSACTIONINFO_BUFFER_SIZE: nat := 309

  /** One datatype serves as both the `Transaction` class and the
      `TransactionInfo` record: they hold the same fields. */
  datatype Transaction = Transaction(
    signature: Signature,
    signingKey: PublicKey,
    timestamp: u64,
    to: Address,
    from: Address,
    amount: u64,
    fee: u64,
    isFee: bool,
    programId: Hash,
    data: TxData)

  /** The primitives of crypto.hpp a transaction needs; their definitions are
      not part of this model. */
  datatype TxCrypto = TxCrypto(
    sha256: seq<byte> -> Hash,
    walletFromKey: PublicKey -> Address,
    checkSignature: (Hash, Signature, PublicKey) -> bool)

  datatype TxError = NotAProgramTransaction | NotLayer2 | MalformedJson

  predicate IsLayer2(t: Transaction) {
    t.timestamp == LAYER_2_TX_FLAG
  }

  predicate IsProgramExecution(t: Transaction) {
    t.timestamp == PROGRAM_CREATE_TX_FLAG
  }

  function GetProgramId(t: Transaction): (r: Result<Hash, TxError>)
    ensures r.Ok? <==> IsLayer2(t) || IsProgramExecution(t)
    ensures r.Ok? ==> r.value == t.programId
  {
    if !IsLayer2(t) && !IsProgramExecution(t) then Err(NotAProgramTransaction)
    else Ok(t.programId)
  }

  function GetData(t: Transaction): (r: Result<TxData, TxError>)
    ensures r.Ok? <==> IsLayer2(t)
    ensures r.Ok? ==> r.value == t.data
  {
    if !IsLayer2(t) then Err(NotLayer2) else Ok(t.data)
  }

  /** The two sentinel timestamps classify a transaction at most one way. */
  lemma ClassesExclusive(t: Transaction)
    ensures !(IsLayer2(t) && IsProgramExecution(t))
  {
  }

  // ---------------------------------------------------------------------
  // Constructors. Fields the C++ constructors leave uninitialised are zero.

  /** The ordinary transfer constructors (the one without a timestamp uses
      the current time, passed in as `timestamp`). */
  function NewTransfer(from: Address, to: Address, amount: u64, signingKey: PublicKey,
                       fee: u64, timestamp: u64): (t: Transaction)
    ensures !t.isFee && t.from == from && t.to == to && t.amount == amount
    ensures t.fee == fee && t.signingKey == signingKey && t.timestamp == timestamp
    ensures t.programId == NULL_HASH && t.data == Zeros(128)
  {
    Transaction(Zeros(64), signingKey, timestamp, to, from, amount, fee, false, NULL_HASH, Zeros(128))
  }

  function NewLayer2(from: Address, to: Address, amount: u64, signingKey: PublicKey,
                     fee: u64, programId: Hash, data: TxData): (t: Transaction)
    ensures IsLayer2(t) && !IsProgramExecution(t) && !t.isFee
    ensures t.from == from && t.to == to && t.amount == amount && t.fee == fee
    ensures GetProgramId(t) == Ok(programId) && GetData(t) == Ok(data)
  {
    Transaction(Zeros(64), signingKey, LAYER_2_TX_FLAG, to, from, amount, fee, false, programId, data)
  }

  function NewProgramCreate(from: Address, signingKey: PublicKey, fee: u64,
                            programId: Hash): (t: Transaction)
    ensures IsProgramExecution(t) && !IsLayer2(t) && !t.isFee
    ensures t.to == NULL_ADDRESS && t.amount == 0 && t.from == from && t.fee == fee
    ensures GetProgramId(t) == Ok(programId) && GetData(t).Err?
  {
    Transaction(Zeros(64), signingKey, PROGRAM_CREATE_TX_FLAG, NULL_ADDRESS, from, 0, fee, false,
                programId, Zeros(128))
  }

  /** The mining-fee constructor: the fee argument becomes the amount. */
  function NewFee(to: Address, fee: u64, now: u64): (t: Transaction)
    ensures t.isFee && t.to == to && t.amount == fee && t.fee == 0 && t.timestamp == now
  {
    Transaction(Zeros(64), Zeros(32), now, to, NULL_ADDRESS, fee, 0, true, NULL_HASH, Zeros(128))
  }

  function MakeLayer2(t: Transaction, programId: Hash, data: TxData): (r: Transaction)
    ensures IsLayer2(r)
    ensures GetProgramId(r) == Ok(programId) && GetData(r) == Ok(data)
    ensures r.(timestamp := t.timestamp, programId := t.programId, data := t.data) == t
  {
    t.(timestamp := LAYER_2_TX_FLAG, programId := programId, data := data)
  }

  /** Transaction(const TransactionInfo&): every field is copied except the
      sender of a fee transaction, which is left unset (zero here). */
  function FromInfo(info: Transaction): (t: Transaction)
    ensures !info.isFee ==> t == info
    ensures info.isFee ==> t.from == NULL_ADDRESS && t.(from := info.from) == info
  {
    if info.isFee then info.(from := NULL_ADDRESS) else info
  }

  /** What the copy loses is invisible to operator==. */
  lemma FromInfoEqual(info: Transaction)
    ensures Equal(FromInfo(info), info)
  {
  }

  // ---------------------------------------------------------------------
  // The 309-byte record: transactionInfoToBuffer / transactionInfoFromBuffer.

  function FeeFlag(t: Transaction): u32 {
    if t.isFee then 1 else 0
  }

  function Encode(t: Transaction): (r: seq<byte>)
    ensures |r| == TRANSACTIONINFO_BUFFER_SIZE
  {
    t.signature + t.signingKey + NetworkUint64(t.timestamp) + t.to
    + NetworkUint64(t.amount) + NetworkUint64(t.fee) + NetworkUint32(FeeFlag(t))
    + t.programId + t.data
  }

  /** Reads a record. The sender is not on the wire: it is NULL_ADDRESS for a
      fee transaction and otherwise derived from the signing key. */
  function Decode(buf: seq<byte>, walletFromKey: PublicKey -> Address): (t: Transaction)
    requires |buf| == TRANSACTIONINFO_BUFFER_SIZE
    ensures t.isFee ==> t.from == NULL_ADDRESS
    ensures !t.isFee ==> t.from == walletFromKey(t.signingKey)
  {
    var isFee := ReadNetworkUint(buf[145..149]) > 0;
    var key: PublicKey := buf[64..96];
    Transaction(
      buf[0..64], key, ReadNetworkUint(buf[96..104]), buf[104..129],
      if isFee then NULL_ADDRESS else walletFromKey(key),
      ReadNetworkUint(buf[129..137]), ReadNetworkUint(buf[137..145]), isFee,
      buf[149..181], buf[181..309])
  }

  /** Where each field sits in an encoded record. */
  lemma EncodeLayout(t: Transaction)
    ensures var e := Encode(t);
      && e[0..64] == t.signature && e[64..96] == t.signingKey
      && e[96..104] == NetworkUint64(t.timestamp) && e[104..129] == t.to
      && e[129..137] == NetworkUint64(t.amount) && e[137..145] == NetworkUint64(t.fee)
      && e[145..149] == NetworkUint32(FeeFlag(t))
      && e[149..181] == t.programId && e[181..309] == t.data
  {
    var e := Encode(t);
    var a := t.signature + t.signingKey;
    var b := a + NetworkUint64(t.timestamp) + t.to;
    var c := b + NetworkUint64(t.amount) + NetworkUint64(t.fee);
    var d := c + NetworkUint32(FeeFlag(t)) + t.programId;
    assert e == d + t.data;
    assert e[..181] == d;
    assert d[..145] == c && c[..129] == b && b[..96] == a;
  }

  /** The record read back: every field but the sender, which is derived. */
  function AsDecoded(t: Transaction, walletFromKey: PublicKey -> Address): Transaction {
    t.(from := if t.isFee then NULL_ADDRESS else walletFromKey(t.signingKey))
  }

  lemma DecodeEncode(t: Transaction, walletFromKey: PublicKey -> Address)
    ensures Decode(Encode(t), walletFromKey) == AsDecoded(t, walletFromKey)
  {
    EncodeLayout(t);
    NetworkUint64RoundTrip(t.timestamp);
    NetworkUint64RoundTrip(t.amount);
    NetworkUint64RoundTrip(t.fee);
    NetworkUint32RoundTrip(FeeFlag(t));
  }

  /** A record whose flag word is 0 or 1 is re-encoded byte for byte. */
  lemma EncodeDecode(buf: seq<byte>, walletFromKey: PublicKey -> Address)
    requires |buf| == TRANSACTIONINFO_BUFFER_SIZE
    requires ReadNetworkUint(buf[145..149]) <= 1
    ensures Encode(Decode(buf, walletFromKey)) == buf
  {
    var t := Decode(buf, walletFromKey);
    EncodeLayout(t);
    ReadNetworkUint64RoundTrip(buf[96..104]);
    ReadNetworkUint64RoundTrip(buf[129..137]);
    ReadNetworkUint64RoundTrip(buf[137..145]);
    ReadNetworkUint32RoundTrip(buf[145..149]);
    var e := Encode(t);
    assert e[145..149] == buf[145..149];
    RecordFields(buf);
    RecordFields(e);
  }

  /** A record is the concatenation of its nine fields. */
  lemma RecordFields(s: seq<byte>)
    requires |s| == TRANSACTIONINFO_BUFFER_SIZE
    ensures s == s[0..64] + s[64..96] + s[96..104] + s[104..129] + s[129..137]
      + s[137..145] + s[145..149] + s[149..181] + s[181..309]
  {
  }

  // ---------------------------------------------------------------------
  // Hashing: hashContents, getHash and signatureValid.

  /** hashContents writes fee, amount and timestamp as raw in-memory words. */
  function ContentPreimage(t: Transaction): (r: seq<byte>)
    ensures |r| == 25 + (if t.isFee then 0 else 25) + (if IsProgramExecution(t) then 32 else 0) + 24
  {
    t.to
    + (if !t.isFee then t.from else [])
    + (if IsProgramExecution(t) then t.programId else [])
    + HostUint64(t.fee) + HostUint64(t.amount) + HostUint64(t.timestamp)
  }

  function HashContents(c: TxCrypto, t: Transaction): Hash {
    c.sha256(ContentPreimage(t))
  }

  /** getHash: the content hash, followed by the signature unless a fee. */
  function TxHashPreimage(c: TxCrypto, t: Transaction): (r: seq<byte>)
    ensures |r| == (if t.isFee then 32 else 96)
    ensures r[..32] == HashContents(c, t)
    ensures !t.isFee ==> r[32..] == t.signature
  {
    HashContents(c, t) + (if !t.isFee then t.signature else [])
  }

  function TxHash(c: TxCrypto, t: Transaction): Hash {
    c.sha256(TxHashPreimage(c, t))
  }

  function SignatureValid(c: TxCrypto, t: Transaction): (ok: bool)
    ensures t.isFee ==> ok
    ensures !t.isFee ==> (ok <==> c.checkSignature(HashContents(c, t), t.signature, t.signingKey))
  {
    if t.isFee then true else c.checkSignature(HashContents(c, t), t.signature, t.signingKey)
  }

  /** The payload, the signature, the signing key and a layer-2 program id
      never reach the content hash. */
  lemma PreimageIgnores(t: Transaction, u: Transaction)
    requires t.to == u.to && t.fee == u.fee && t.amount == u.amount
    requires t.timestamp == u.timestamp && t.isFee == u.isFee
    requires !t.isFee ==> t.from == u.from
    requires IsProgramExecution(t) ==> t.programId == u.programId
    ensures ContentPreimage(t) == ContentPreimage(u)
  {
  }

  /** Where each field sits in the content preimage. */
  lemma PreimageLayout(t: Transaction)
    ensures var p := ContentPreimage(t);
      var k := 25 + (if t.isFee then 0 else 25) + (if IsProgramExecution(t) then 32 else 0);
      && p[..25] == t.to
      && (!t.isFee ==> p[25..50] == t.from)
      && (IsProgramExecution(t) ==> p[k - 32..k] == t.programId)
      && p[k..k + 8] == HostUint64(t.fee)
      && p[k + 8..k + 16] == HostUint64(t.amount)
      && p[k + 16..k + 24] == HostUint64(t.timestamp)
  {
    var from := if !t.isFee then t.from else [];
    var prog := if IsProgramExecution(t) then t.programId else [];
    var head := t.to + from + prog;
    var tail := HostUint64(t.fee) + HostUint64(t.amount) + HostUint64(t.timestamp);
    var p := ContentPreimage(t);
    var k := |head|;
    assert p == head + tail;
    assert p[..k] == head && p[k..] == tail;
    assert head[..25] == t.to;
    assert (t.to + from)[25..] == from;
    assert head[k - |prog|..] == prog;
    assert tail[..8] == HostUint64(t.fee);
    assert tail[8..16] == HostUint64(t.amount);
    assert tail[16..] == HostUint64(t.timestamp);
  }

  /** Two transactions of the same kind with the same content preimage agree
      on every field the preimage covers. */
  lemma PreimageDetermines(t: Transaction, u: Transaction)
    requires t.isFee == u.isFee && IsProgramExecution(t) == IsProgramExecution(u)
    requires ContentPreimage(t) == ContentPreimage(u)
    ensures t.to == u.to && t.fee == u.fee && t.amount == u.amount && t.timestamp == u.timestamp
    ensures !t.isFee ==> t.from == u.from
    ensures IsProgramExecution(t) ==> t.programId == u.programId
  {
    PreimageLayout(t);
    PreimageLayout(u);
    HostUint64Injective(t.fee, u.fee);
    HostUint64Injective(t.amount, u.amount);
    HostUint64Injective(t.timestamp, u.timestamp);
  }

  // ---------------------------------------------------------------------
  // operator==

  predicate Equal(a: Transaction, b: Transaction) {
    && a.timestamp == b.timestamp
    && a.to == b.to
    && a.fee == b.fee
    && a.amount == b.amount
    && a.isFee == b.isFee
    && (IsLayer2(a) ==> a.programId == b.programId && a.data == b.data)
    && (IsProgramExecution(a) ==> a.programId == b.programId)
    && (!a.isFee ==> a.from == b.from && a.signature == b.signature && a.signingKey == b.signingKey)
  }

  lemma EqualIsEquivalence(a: Transaction, b: Transaction, c: Transaction)
    ensures Equal(a, a)
    ensures Equal(a, b) ==> Equal(b, a)
    ensures Equal(a, b) && Equal(b, c) ==> Equal(a, c)
  {
  }

  /** Fee transactions are compared on timestamp, recipient, fee and amount
      (and program fields when the timestamp says so), never on sender,
      signature or key. */
  lemma FeeEqualityIgnoresSigner(a: Transaction, from: Address, sig: Signature, key: PublicKey)
    requires a.isFee
    ensures Equal(a, a.(from := from, signature := sig, signingKey := key))
  {
  }

  /** A record read back compares equal to the original, provided the
      original's sender is the one its key derives (or it is a fee). */
  lemma DecodeEncodeEqual(t: Transaction, walletFromKey: PublicKey -> Address)
    requires t.isFee || t.from == walletFromKey(t.signingKey)
    ensures Equal(Decode(Encode(t), walletFromKey), t)
  {
    DecodeEncode(t, walletFromKey);
  }

  // ---------------------------------------------------------------------
  // JSON form: toJson and Transaction(json). Each JSON value is tagged with
  // the helper that spells it (walletAddressToString, uint64ToString, ...);
  // those helpers and their inverses are assumed to round-trip.

  datatype JValue =
    | JText(text: string)         // a literal JSON string
    | JNumber(n: u64)             // a JSON number
    | JDecimalText(d: u64)        // uint64ToString
    | JAddress(address: Address)  // walletAddressToString
    | JHash(hash: Hash)           // SHA256toString
    | JHex(bytes: seq<byte>)      // hexEncode
    | JKey(key: PublicKey)        // publicKeyToString
    | JSignature(sig: Signature)  // signatureToString

  type Json = map<string, JValue>

  function ToJson(c: TxCrypto, t: Transaction): (j: Json)
    ensures "from" in j && (j["from"] == JText("") <==> t.isFee)
    ensures "data" in j <==> IsLayer2(t)
    ensures "programId" in j <==> IsLayer2(t) || IsProgramExecution(t)
    ensures ("signature" in j <==> !t.isFee) && ("signingKey" in j <==> !t.isFee)
    ensures j.Keys >= {"to", "amount", "timestamp", "fee", "txid", "from"}
    ensures j["txid"] == JHash(HashContents(c, t))
  {
    var base := map["to" := JAddress(t.to), "amount" := JNumber(t.amount),
                    "timestamp" := JDecimalText(t.timestamp), "fee" := JNumber(t.fee)];
    var withL2 := if IsLayer2(t) then base["data" := JHex(t.data)]["programId" := JHash(t.programId)]
                  else base;
    var withProgram := if IsProgramExecution(t) then withL2["programId" := JHash(t.programId)]
                       else withL2;
    if !t.isFee then
      withProgram["txid" := JHash(HashContents(c, t))]["from" := JAddress(t.from)]
                 ["signingKey" := JKey(t.signingKey)]["signature" := JSignature(t.signature)]
    else
      withProgram["txid" := JHash(HashContents(c, t))]["from" := JText("")]
  }

  function JsonUint(j: Json, key: string): Option<u64> {
    if key in j && j[key].JNumber? then Some(j[key].n) else None
  }

  /** Transaction(json). A missing field or one of the wrong kind makes the
      JSON library throw; a hex payload shorter than 128 bytes would be read
      past its end and is rejected here. */
  function FromJson(j: Json): (r: Result<Transaction, TxError>)
    ensures r.Ok? ==> "from" in j && (r.value.isFee <==> j["from"] == JText(""))
    ensures r.Ok? ==> "timestamp" in j && j["timestamp"] == JDecimalText(r.value.timestamp)
    ensures "from" !in j || "to" !in j || "timestamp" !in j ==> r.Err?
  {
    if "timestamp" !in j || !j["timestamp"].JDecimalText? then Err(MalformedJson)
    else
      var ts := j["timestamp"].d;
      var programAndData: Result<(Hash, TxData), TxError> :=
        if ts == LAYER_2_TX_FLAG then
          if "programId" in j && j["programId"].JHash? && "data" in j && j["data"].JHex?
             && |j["data"].bytes| >= 128
          then Ok((j["programId"].hash, j["data"].bytes[..128]))
          else Err(MalformedJson)
        else if ts == PROGRAM_CREATE_TX_FLAG then
          if "programId" in j && j["programId"].JHash? then Ok((j["programId"].hash, Zeros(128)))
          else Err(MalformedJson)
        else Ok((NULL_HASH, Zeros(128)));
      if programAndData.Err? || "to" !in j || !j["to"].JAddress? || JsonUint(j, "fee").None?
         || JsonUint(j, "amount").None? || "from" !in j then Err(MalformedJson)
      else
        var (programId, data) := programAndData.value;
        var to := j["to"].address;
        var fee := JsonUint(j, "fee").value;
        var amount := JsonUint(j, "amount").value;
        if j["from"] == JText("") then
          Ok(Transaction(Zeros(64), Zeros(32), ts, to, NULL_ADDRESS, amount, fee, true, programId, data))
        else if j["from"].JAddress? && "signature" in j && j["signature"].JSignature?
                && "signingKey" in j && j["signingKey"].JKey? then
          Ok(Transaction(j["signature"].sig, j["signingKey"].key, ts, to, j["from"].address,
                         amount, fee, false, programId, data))
        else Err(MalformedJson)
  }

  /** A transaction written to JSON and read back compares equal. */
  lemma JsonRoundTrip(c: TxCrypto, t: Transaction)
    ensures FromJson(ToJson(c, t)).Ok?
    ensures Equal(FromJson(ToJson(c, t)).value, t)
  {
    var j := ToJson(c, t);
    if IsLayer2(t) {
      assert j["data"] == JHex(t.data);
      assert t.data[..128] == t.data;
    }
  }
}
