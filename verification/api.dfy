/** The wire formats of the peer API (src/core/api.cpp): how response
    bodies are cut into header, transaction and block records, the bodies
    the node sends, and the failure handling of the `try_host` queries. The
    HTTP transport is not modelled: a response body, or its absence, is an
    input. */
module Api {
  import opened Types
  import opened Wrappers
  import opened Blocks
  import Transaction
  import Decimal

  const TX_SIZE: nat := Transaction.TRANSACTIONINFO_BUFFER_SIZE

  // ---------------------------------------------------------------------
  // Fixed-size records

  /** `r` lists the whole `size`-byte records of `body` in order: as many
      as fit (floor(|body| / size)), record i at offset i * size. */
  ghost predicate IsChunking(r: seq<seq<byte>>, body: seq<byte>, size: nat) {
    && |r| * size <= |body| < |r| * size + size
    && forall i :: 0 <= i < |r| ==> i * size + size <= |body| && r[i] == body[i * size..i * size + size]
  }

  lemma ChunkingCons(body: seq<byte>, size: nat, rest: seq<seq<byte>>)
    requires 0 < size <= |body|
    requires IsChunking(rest, body[size..], size)
    ensures IsChunking([body[..size]] + rest, body, size)
  {
    var r := [body[..size]] + rest;
    assert |r| * size == |rest| * size + size;
    forall i | 0 <= i < |r|
      ensures i * size + size <= |body| && r[i] == body[i * size..i * size + size]
    {
      if i > 0 {
        var j := i - 1;
        assert j * size + size == i * size;
        assert r[i] == rest[j];
      }
    }
  }

  /** The whole `size`-byte records of `body`, in order. */
  function Chunks(body: seq<byte>, size: nat): (r: seq<seq<byte>>)
    requires size > 0
    ensures IsChunking(r, body, size)
    decreases |body|
  {
    if |body| < size then []
    else
      var rest := Chunks(body[size..], size);
      ChunkingCons(body, size, rest);
      [body[..size]] + rest
  }

  function Flatten(xs: seq<seq<byte>>): (r: seq<byte>)
    decreases |xs|
  {
    if |xs| == 0 then [] else xs[0] + Flatten(xs[1..])
  }

  predicate AllOfSize(xs: seq<seq<byte>>, size: nat) {
    forall i :: 0 <= i < |xs| ==> |xs[i]| == size
  }

  lemma {:induction false} FlattenLength(xs: seq<seq<byte>>, size: nat)
    requires AllOfSize(xs, size)
    ensures |Flatten(xs)| == |xs| * size
    decreases |xs|
  {
    if |xs| > 0 {
      FlattenLength(xs[1..], size);
      assert |xs| * size == size + (|xs| - 1) * size;
    }
  }

  /** Cutting a concatenation of equal-size records gives the records back. */
  lemma {:induction false} ChunksFlatten(xs: seq<seq<byte>>, size: nat)
    requires size > 0 && AllOfSize(xs, size)
    ensures Chunks(Flatten(xs), size) == xs
    decreases |xs|
  {
    if |xs| > 0 {
      var f := Flatten(xs);
      FlattenLength(xs[1..], size);
      assert f[..size] == xs[0];
      assert f[size..] == Flatten(xs[1..]);
      ChunksFlatten(xs[1..], size);
      assert xs == [xs[0]] + xs[1..];
    }
  }

  // ---------------------------------------------------------------------
  // readRawHeaders and readRawTransactions

  /** readRawHeaders: floor(|body| / H) headers, record i read at offset
      i * H; trailing bytes are ignored. */
  function ReadRawHeaders(hc: HeaderCodec, body: seq<byte>): (r: seq<BlockHeader>)
    requires hc.size > 0
    ensures |r| * hc.size <= |body| < |r| * hc.size + hc.size
    ensures DecodedAt(r, body, hc.size, hc.decode)
  {
    var records := Chunks(body, hc.size);
    var r := MapRecords(hc.decode, records);
    DecodeRecords(hc.decode, records, body, hc.size, r);
    r
  }

  /** Item i of `r` is `decode` of the `size` bytes at offset i * size. */
  ghost predicate DecodedAt<T>(r: seq<T>, body: seq<byte>, size: nat, decode: seq<byte> -> T) {
    forall i :: 0 <= i < |r| ==>
      i * size + size <= |body| && r[i] == decode(body[i * size..i * size + size])
  }

  function MapRecords<T>(decode: seq<byte> -> T, records: seq<seq<byte>>): (r: seq<T>)
    ensures |r| == |records| && forall i :: 0 <= i < |r| ==> r[i] == decode(records[i])
  {
    seq(|records|, i requires 0 <= i < |records| => decode(records[i]))
  }

  lemma DecodeRecords<T>(decode: seq<byte> -> T, records: seq<seq<byte>>, body: seq<byte>, size: nat, r: seq<T>)
    requires IsChunking(records, body, size)
    requires |r| == |records| && forall i :: 0 <= i < |r| ==> r[i] == decode(records[i])
    ensures |r| * size <= |body| < |r| * size + size
    ensures DecodedAt(r, body, size, decode)
  {
  }

  function EncodeHeaders(hc: HeaderCodec, hs: seq<BlockHeader>): (r: seq<seq<byte>>)
    ensures |r| == |hs|
  {
    seq(|hs|, i requires 0 <= i < |hs| => hc.encode(hs[i]))
  }

  /** Headers served back to back are read back exactly. */
  lemma ReadRawHeadersRoundTrip(hc: HeaderCodec, hs: seq<BlockHeader>)
    requires ValidCodec(hc) && forall i :: 0 <= i < |hs| ==> Representable(hc, hs[i])
    ensures ReadRawHeaders(hc, Flatten(EncodeHeaders(hc, hs))) == hs
  {
    var encs := EncodeHeaders(hc, hs);
    ChunksFlatten(encs, hc.size);
  }

  /** readRawTransactions: floor(|body| / 309) transactions, record i read
      at offset i * 309. */
  function ReadRawTransactions(body: seq<byte>, walletFromKey: PublicKey -> Address)
    : (r: seq<Transaction.Transaction>)
    ensures |r| * TX_SIZE <= |body| < |r| * TX_SIZE + TX_SIZE
    ensures forall i :: 0 <= i < |r| ==>
      i * TX_SIZE + TX_SIZE <= |body|
      && r[i] == Transaction.Decode(body[i * TX_SIZE..i * TX_SIZE + TX_SIZE], walletFromKey)
  {
    var records := Chunks(body, TX_SIZE);
    var r := seq(|records|, i requires 0 <= i < |records| => Transaction.Decode(records[i], walletFromKey));
    assert IsChunking(records, body, TX_SIZE);
    assert |r| == |records|;
    r
  }

  function EncodeTransactions(ts: seq<Transaction.Transaction>): (r: seq<seq<byte>>)
    ensures |r| == |ts| && AllOfSize(r, TX_SIZE)
  {
    seq(|ts|, i requires 0 <= i < |ts| => Transaction.Encode(ts[i]))
  }

  /** Every transaction as the receiver sees it (the sender re-derived). */
  function DecodedTransactions(ts: seq<Transaction.Transaction>, walletFromKey: PublicKey -> Address)
    : (r: seq<Transaction.Transaction>)
    ensures |r| == |ts|
  {
    seq(|ts|, i requires 0 <= i < |ts| => Transaction.AsDecoded(ts[i], walletFromKey))
  }

  lemma ReadRawTransactionsRoundTrip(ts: seq<Transaction.Transaction>, walletFromKey: PublicKey -> Address)
    ensures ReadRawTransactions(Flatten(EncodeTransactions(ts)), walletFromKey)
         == DecodedTransactions(ts, walletFromKey)
  {
    var encs := EncodeTransactions(ts);
    ChunksFlatten(encs, TX_SIZE);
    forall i | 0 <= i < |ts| {
      Transaction.DecodeEncode(ts[i], walletFromKey);
    }
  }

  // ---------------------------------------------------------------------
  // Bodies the node sends: submitBlock and sendTransaction

  /** The bytes of one block: its header, then each transaction record. */
  function BlockBody(hc: HeaderCodec, b: Block): (r: seq<byte>)
    requires FixedSize(hc) && CountsTransactions(b)
    ensures |r| == hc.size + TX_SIZE * b.header.numTransactions
    ensures r[..hc.size] == hc.encode(b.header)
    ensures forall j :: 0 <= j < |b.transactions| ==>
      hc.size + TX_SIZE * j + TX_SIZE <= |r|
      && r[hc.size + TX_SIZE * j..hc.size + TX_SIZE * j + TX_SIZE] == Transaction.Encode(b.transactions[j])
  {
    var txs := EncodeTransactions(b.transactions);
    FlattenLength(txs, TX_SIZE);
    var r := hc.encode(b.header) + Flatten(txs);
    BlockBodyLayout(hc, b, r);
    r
  }

  lemma BlockBodyLayout(hc: HeaderCodec, b: Block, r: seq<byte>)
    requires FixedSize(hc)
    requires r == hc.encode(b.header) + Flatten(EncodeTransactions(b.transactions))
    ensures forall j :: 0 <= j < |b.transactions| ==>
      hc.size + TX_SIZE * j + TX_SIZE <= |r|
      && r[hc.size + TX_SIZE * j..hc.size + TX_SIZE * j + TX_SIZE] == Transaction.Encode(b.transactions[j])
  {
    forall j | 0 <= j < |b.transactions|
      ensures hc.size + TX_SIZE * j + TX_SIZE <= |r|
      ensures r[hc.size + TX_SIZE * j..hc.size + TX_SIZE * j + TX_SIZE] == Transaction.Encode(b.transactions[j])
    {
      BlockBodyRecord(hc, b, j);
    }
  }

  lemma BlockBodyRecord(hc: HeaderCodec, b: Block, j: nat)
    requires FixedSize(hc) && j < |b.transactions|
    ensures var r := hc.encode(b.header) + Flatten(EncodeTransactions(b.transactions));
      && hc.size + TX_SIZE * j + TX_SIZE <= |r|
      && r[hc.size + TX_SIZE * j..hc.size + TX_SIZE * j + TX_SIZE] == Transaction.Encode(b.transactions[j])
  {
    var txs := EncodeTransactions(b.transactions);
    var f := Flatten(txs);
    var p := hc.encode(b.header);
    assert TX_SIZE * j + TX_SIZE <= |f| && f[TX_SIZE * j..TX_SIZE * j + TX_SIZE] == txs[j] by {
      ChunksFlatten(txs, TX_SIZE);
      RecordOfChunking(txs, f, j);
    }
    assert |p| == hc.size;
    assert txs[j] == Transaction.Encode(b.transactions[j]);
    SliceAfterPrefix(p, f, TX_SIZE * j, TX_SIZE);
  }

  lemma RecordOfChunking(rs: seq<seq<byte>>, f: seq<byte>, j: nat)
    requires IsChunking(rs, f, TX_SIZE) && j < |rs|
    ensures TX_SIZE * j + TX_SIZE <= |f| && f[TX_SIZE * j..TX_SIZE * j + TX_SIZE] == rs[j]
  {
    assert j * TX_SIZE == TX_SIZE * j;
  }

  lemma SliceAfterPrefix(p: seq<byte>, f: seq<byte>, a: nat, n: nat)
    requires a + n <= |f|
    ensures (p + f)[|p| + a..|p| + a + n] == f[a..a + n]
  {
  }

  /** sendTransaction: the body is exactly one record, read back by the
      receiver as the transaction with its sender re-derived. */
  function SendTransactionBody(t: Transaction.Transaction): (r: seq<byte>)
    ensures |r| == TX_SIZE
    ensures forall wfk: PublicKey -> Address {:trigger ReadRawTransactions(r, wfk)} ::
      ReadRawTransactions(r, wfk) == [Transaction.AsDecoded(t, wfk)]
  {
    var r := Transaction.Encode(t);
    forall wfk: PublicKey -> Address ensures ReadRawTransactions(r, wfk) == [Transaction.AsDecoded(t, wfk)] {
      Transaction.DecodeEncode(t, wfk);
      assert r[0..TX_SIZE] == r;
    }
    r
  }

  // ---------------------------------------------------------------------
  // readRawBlocks

  /** An exception of readRawBlocks. Reading a header or a transaction
      record past the end of the body has no defined outcome in the code;
      it is reported here as `Truncated`. */
  datatype FrameError = InvalidBlockData | Truncated

  function BlockSize(hc: HeaderCodec, b: Block): nat {
    hc.size + TX_SIZE * |b.transactions|
  }

  function TotalSize(hc: HeaderCodec, bs: seq<Block>): nat
    decreases |bs|
  {
    if |bs| == 0 then 0 else BlockSize(hc, bs[0]) + TotalSize(hc, bs[1..])
  }

  /** The parsing loop over the bytes not yet read. */
  function ParseBlocks(hc: HeaderCodec, rest: seq<byte>, walletFromKey: PublicKey -> Address)
    : (r: Result<seq<Block>, FrameError>)
    requires hc.size > 0 && |rest| > 0
    ensures r.Ok? ==> |r.value| > 0 && TotalSize(hc, r.value) == |rest|
    ensures r.Ok? ==> forall k :: 0 <= k < |r.value| ==> CountsTransactions(r.value[k])
    ensures r.Err? ==> r.error == Truncated
    decreases |rest|
  {
    if |rest| < hc.size then Err(Truncated)
    else
      var h := hc.decode(rest[..hc.size]);
      var need := hc.size + TX_SIZE * h.numTransactions;
      if |rest| < need then Err(Truncated)
      else
        var block := Block(h, ReadRawTransactions(rest[hc.size..need], walletFromKey));
        assert |block.transactions| == h.numTransactions;
        if need == |rest| then Ok([block])
        else
          match ParseBlocks(hc, rest[need..], walletFromKey)
          case Err(e) => Err(e)
          case Ok(more) =>
            assert ([block] + more)[1..] == more;
            Ok([block] + more)
  }

  /** readRawBlocks: a body shorter than one header throws; otherwise
      blocks are read until the bytes read reach the body's length. */
  function ReadRawBlocks(hc: HeaderCodec, body: seq<byte>, walletFromKey: PublicKey -> Address)
    : (r: Result<seq<Block>, FrameError>)
    requires hc.size > 0
    ensures |body| < hc.size <==> r == Err(InvalidBlockData)
    ensures r.Ok? ==> |r.value| > 0 && r.value[0].header == hc.decode(body[..hc.size])
    ensures r.Ok? ==> TotalSize(hc, r.value) == |body|
    ensures r.Ok? ==> forall k :: 0 <= k < |r.value| ==> CountsTransactions(r.value[k])
  {
    if |body| < hc.size then Err(InvalidBlockData) else ParseBlocks(hc, body, walletFromKey)
  }

  function BlockBodies(hc: HeaderCodec, bs: seq<Block>): (r: seq<seq<byte>>)
    requires FixedSize(hc) && forall k :: 0 <= k < |bs| ==> CountsTransactions(bs[k])
    ensures |r| == |bs|
  {
    seq(|bs|, k requires 0 <= k < |bs| => BlockBody(hc, bs[k]))
  }

  function DecodedBlocks(bs: seq<Block>, walletFromKey: PublicKey -> Address): (r: seq<Block>)
    ensures |r| == |bs|
  {
    seq(|bs|, k requires 0 <= k < |bs| =>
      Block(bs[k].header, DecodedTransactions(bs[k].transactions, walletFromKey)))
  }

  /** One loop iteration over a block's own bytes followed by `tail`. */
  lemma ParseBlocksStep(hc: HeaderCodec, b: Block, tail: seq<byte>, walletFromKey: PublicKey -> Address)
    requires ValidCodec(hc) && CountsTransactions(b) && Representable(hc, b.header)
    ensures var block := Block(b.header, DecodedTransactions(b.transactions, walletFromKey));
      ParseBlocks(hc, BlockBody(hc, b) + tail, walletFromKey) ==
        if |tail| == 0 then Ok([block])
        else match ParseBlocks(hc, tail, walletFromKey)
             case Err(e) => Err(e)
             case Ok(more) => Ok([block] + more)
  {
    var txs := EncodeTransactions(b.transactions);
    var p := hc.encode(b.header);
    var f := Flatten(txs);
    var need := hc.size + TX_SIZE * b.header.numTransactions;
    assert |p| == hc.size;
    assert |f| == TX_SIZE * b.header.numTransactions by {
      FlattenLength(txs, TX_SIZE);
    }
    assert BlockBody(hc, b) == p + f;
    var rest := p + f + tail;
    SplitThree(p, f, tail);
    assert ReadRawTransactions(f, walletFromKey) == DecodedTransactions(b.transactions, walletFromKey) by {
      ReadRawTransactionsRoundTrip(b.transactions, walletFromKey);
    }
  }

  lemma SplitThree(p: seq<byte>, f: seq<byte>, tail: seq<byte>)
    ensures (p + f + tail)[..|p|] == p
    ensures (p + f + tail)[|p|..|p| + |f|] == f
    ensures (p + f + tail)[|p| + |f|..] == tail
  {
  }

  lemma {:induction false} ParseBlocksRoundTrip(hc: HeaderCodec, bs: seq<Block>, walletFromKey: PublicKey -> Address)
    requires ValidCodec(hc) && |bs| > 0
    requires forall k :: 0 <= k < |bs| ==> CountsTransactions(bs[k])
    requires forall k :: 0 <= k < |bs| ==> Representable(hc, bs[k].header)
    ensures ParseBlocks(hc, Flatten(BlockBodies(hc, bs)), walletFromKey) == Ok(DecodedBlocks(bs, walletFromKey))
    decreases |bs|
  {
    var bodies := BlockBodies(hc, bs);
    var tail := Flatten(bodies[1..]);
    assert Flatten(bodies) == BlockBody(hc, bs[0]) + tail;
    ParseBlocksStep(hc, bs[0], tail, walletFromKey);
    var block := Block(bs[0].header, DecodedTransactions(bs[0].transactions, walletFromKey));
    DecodedBlocksCons(bs, walletFromKey);
    if |bs| == 1 {
      assert tail == [];
      assert DecodedBlocks(bs[1..], walletFromKey) == [];
      assert ParseBlocks(hc, Flatten(bodies), walletFromKey) == Ok([block]);
      assert DecodedBlocks(bs, walletFromKey) == [block];
    } else {
      var rest := bs[1..];
      assert Flatten(BlockBodies(hc, rest)) == tail by {
        BlockBodiesTail(hc, bs);
      }
      FlattenNonEmpty(hc, rest);
      ParseBlocksRoundTrip(hc, rest, walletFromKey);
      var more := DecodedBlocks(rest, walletFromKey);
      assert ParseBlocks(hc, tail, walletFromKey) == Ok(more);
      assert |tail| > 0;
      assert ParseBlocks(hc, Flatten(bodies), walletFromKey) == Ok([block] + more);
      assert DecodedBlocks(bs, walletFromKey) == [block] + more;
    }
  }

  lemma DecodedBlocksCons(bs: seq<Block>, walletFromKey: PublicKey -> Address)
    requires |bs| > 0
    ensures DecodedBlocks(bs, walletFromKey)
         == [Block(bs[0].header, DecodedTransactions(bs[0].transactions, walletFromKey))]
            + DecodedBlocks(bs[1..], walletFromKey)
  {
    var d := DecodedBlocks(bs, walletFromKey);
    var e := DecodedBlocks(bs[1..], walletFromKey);
    forall k | 0 <= k < |e| ensures d[k + 1] == e[k] {
      assert bs[1..][k] == bs[k + 1];
    }
  }

  lemma BlockBodiesTail(hc: HeaderCodec, bs: seq<Block>)
    requires FixedSize(hc) && |bs| > 0
    requires forall k :: 0 <= k < |bs| ==> CountsTransactions(bs[k])
    ensures BlockBodies(hc, bs[1..]) == BlockBodies(hc, bs)[1..]
  {
    var d := BlockBodies(hc, bs);
    var e := BlockBodies(hc, bs[1..]);
    forall k | 0 <= k < |e| ensures d[k + 1] == e[k] {
      assert bs[1..][k] == bs[k + 1];
    }
  }

  lemma FlattenNonEmpty(hc: HeaderCodec, bs: seq<Block>)
    requires FixedSize(hc) && |bs| > 0
    requires forall k :: 0 <= k < |bs| ==> CountsTransactions(bs[k])
    ensures |Flatten(BlockBodies(hc, bs))| > 0
  {
    var bodies := BlockBodies(hc, bs);
    assert Flatten(bodies) == bodies[0] + Flatten(bodies[1..]);
  }

  /** Blocks served back to back, as /sync serves them, are read back with
      their transactions as the receiver decodes them. */
  lemma ReadRawBlocksRoundTrip(hc: HeaderCodec, bs: seq<Block>, walletFromKey: PublicKey -> Address)
    requires ValidCodec(hc) && |bs| > 0
    requires forall k :: 0 <= k < |bs| ==> CountsTransactions(bs[k])
    requires forall k :: 0 <= k < |bs| ==> Representable(hc, bs[k].header)
    ensures ReadRawBlocks(hc, Flatten(BlockBodies(hc, bs)), walletFromKey) == Ok(DecodedBlocks(bs, walletFromKey))
  {
    ParseBlocksRoundTrip(hc, bs, walletFromKey);
    var bodies := BlockBodies(hc, bs);
    assert Flatten(bodies) == bodies[0] + Flatten(bodies[1..]);
  }

  // ---------------------------------------------------------------------
  // try_host queries and pingPeer

  /** try_host: no response, or a parser that throws (here: returns None),
      gives an empty result; nothing escapes. */
  function TryHost<T>(response: Option<string>, parse: string -> Option<T>): (r: Option<T>)
    ensures response.None? ==> r.None?
    ensures response.Some? ==> r == parse(response.value)
  {
    match response
    case None => None
    case Some(body) => parse(body)
  }

  /** The characters C's `isspace` accepts. */
  predicate IsCSpace(c: char) {
    c == ' ' || c == '\t' || c == '\n' || c == '\U{B}' || c == '\U{C}' || c == '\r'
  }

  /** What is left of `s` after its leading white space. */
  function SkipSpace(s: string): (r: string)
    ensures |r| <= |s| && r == s[|s| - |r|..]
    ensures forall i :: 0 <= i < |s| - |r| ==> IsCSpace(s[i])
    ensures |r| > 0 ==> !IsCSpace(r[0])
  {
    if |s| > 0 && IsCSpace(s[0]) then SkipSpace(s[1..]) else s
  }

  /** `std::stoul` (base 10, via `strtoul`) narrowed to uint32_t: leading
      white space is skipped, an optional `+` or `-` is taken, then the
      leading decimal digits. No digits, or a magnitude that does not fit in
      64 bits, throws; a `-` negates modulo 2^64; the conversion keeps the
      low 32 bits. */
  function ParseBlockCount(body: string): (r: Option<u32>)
    ensures r.Some? ==> exists i :: 0 <= i < |body| && Decimal.IsDigit(body[i])
  {
    var t := SkipSpace(body);
    var r := ParseSigned(t);
    assert r.Some? ==> exists i :: 0 <= i < |t| && Decimal.IsDigit(t[i]);
    assert forall i :: 0 <= i < |t| ==> t[i] == body[|body| - |t| + i];
    r
  }

  /** The text after the white space: an optional sign, then digits. */
  function ParseSigned(t: string): (r: Option<u32>)
    ensures r.Some? ==> exists i :: 0 <= i < |t| && Decimal.IsDigit(t[i])
  {
    if |t| > 0 && (t[0] == '+' || t[0] == '-') then
      var digits := Decimal.DigitPrefix(t[1..]);
      assert |digits| > 0 ==> t[1] == digits[0];
      ParseDigits(digits, t[0] == '-')
    else
      var digits := Decimal.DigitPrefix(t);
      assert |digits| > 0 ==> t[0] == digits[0];
      ParseDigits(digits, false)
  }

  /** getCurrentBlockCount: `/block_count`. */
  function GetCurrentBlockCount(response: Option<string>): (r: Option<u32>)
    ensures response.None? ==> r.None?
  {
    TryHost(response, ParseBlockCount)
  }

  /** A count served as decimal text, after any white space and an
      optional sign, is read back: negated modulo 2^64 after a `-`, and cut
      to its low 32 bits. */
  lemma BlockCountRoundTrip(spaces: string, sign: string, n: nat, suffix: string)
    requires forall i :: 0 <= i < |spaces| ==> IsCSpace(spaces[i])
    requires sign == "" || sign == "+" || sign == "-"
    requires n < U64_LIMIT
    requires |suffix| > 0 ==> !Decimal.IsDigit(suffix[0])
    ensures sign == "-" ==> GetCurrentBlockCount(Some(spaces + sign + Decimal.ToDecimal(n) + suffix))
                            == Some(Wrap64(-(n as int)) % U32_LIMIT)
    ensures sign != "-" ==> GetCurrentBlockCount(Some(spaces + sign + Decimal.ToDecimal(n) + suffix))
                            == Some(n % U32_LIMIT)
  {
    var s := Decimal.ToDecimal(n);
    var rest := sign + (s + suffix);
    var body := spaces + sign + s + suffix;
    assert body == spaces + rest;
    assert rest[0] == if sign == "" then s[0] else sign[0];
    SkipSpaceOf(spaces, rest);
    assert ParseBlockCount(body) == ParseSigned(rest);
    ParseSignedOf(sign, s, suffix);
    assert GetCurrentBlockCount(Some(body)) == ParseDigits(s, sign == "-");
    ParseDigitsOf(n, sign == "-");
  }

  /** The sign and the digit run are split off as written. */
  lemma ParseSignedOf(sign: string, s: string, suffix: string)
    requires sign == "" || sign == "+" || sign == "-"
    requires |s| > 0 && Decimal.AllDigits(s)
    requires |suffix| > 0 ==> !Decimal.IsDigit(suffix[0])
    ensures ParseSigned(sign + (s + suffix)) == ParseDigits(s, sign == "-")
  {
    var t := sign + (s + suffix);
    SignedValue(t, sign, s + suffix);
    DigitPrefixOfDigits(s, suffix);
    if sign == "" {
      assert t == s + suffix;
    } else {
      assert t[1..] == s + suffix;
    }
  }

  /** The digits of a number below 2^64 give it back, signed and narrowed. */
  lemma ParseDigitsOf(n: nat, negative: bool)
    requires n < U64_LIMIT
    ensures negative ==> ParseDigits(Decimal.ToDecimal(n), negative) == Some(Wrap64(-(n as int)) % U32_LIMIT)
    ensures !negative ==> ParseDigits(Decimal.ToDecimal(n), negative) == Some(n % U32_LIMIT)
    ensures !negative && n < U32_LIMIT ==> ParseDigits(Decimal.ToDecimal(n), negative) == Some(n)
  {
    var s := Decimal.ToDecimal(n);
    Decimal.ValueOfToDecimal(n);
    assert |s| > 0 && Decimal.ValueOf(s) == n;
    if !negative && n < U32_LIMIT {
      assert n % U32_LIMIT == n;
    }
  }

  /** The result once the digits are known. */
  function ParseDigits(digits: string, negative: bool): (r: Option<u32>)
    requires Decimal.AllDigits(digits)
    ensures r.Some? ==> |digits| > 0
  {
    if |digits| == 0 then None
    else
      var v := Decimal.ValueOf(digits);
      if v >= U64_LIMIT then None
      else if negative then Some(Wrap64(-(v as int)) % U32_LIMIT)
      else Some(v % U32_LIMIT)
  }

  /** After the white space: the sign, if any, is taken off first. */
  lemma SignedValue(t: string, sign: string, u: string)
    requires sign == "" || sign == "+" || sign == "-"
    requires t == sign + u && |u| > 0 && Decimal.IsDigit(u[0])
    ensures (|t| > 0 && (t[0] == '+' || t[0] == '-')) <==> sign != ""
    ensures sign != "" ==> t[1..] == u && (t[0] == '-' <==> sign == "-")
  {
    if sign != "" {
      assert t[1..] == u;
    }
  }

  lemma {:induction false} SkipSpaceOf(spaces: string, rest: string)
    requires forall i :: 0 <= i < |spaces| ==> IsCSpace(spaces[i])
    requires |rest| > 0 && !IsCSpace(rest[0])
    ensures SkipSpace(spaces + rest) == rest
    decreases |spaces|
  {
    if |spaces| > 0 {
      assert (spaces + rest)[1..] == spaces[1..] + rest;
      SkipSpaceOf(spaces[1..], rest);
    } else {
      assert spaces + rest == rest;
    }
  }

  /** A count after leading white space is read. */
  lemma BlockCountSpaceLed()
    ensures ParseBlockCount(" 42") == Some(42)
  {
    assert Decimal.ToDecimal(42) == "42";
    SkipSpaceOf(" ", "42");
    assert " " + "42" == " 42";
    ParseSignedOf("", "42", []);
    assert "" + ("42" + []) == "42";
    ParseDigitsOf(42, false);
  }

  /** A leading `+` is accepted. */
  lemma BlockCountPlus()
    ensures ParseBlockCount("+42") == Some(42)
  {
    assert Decimal.ToDecimal(42) == "42";
    SkipSpaceOf("", "+42");
    assert "" + "+42" == "+42";
    ParseSignedOf("+", "42", []);
    assert "+" + ("42" + []) == "+42";
    ParseDigitsOf(42, false);
  }

  /** A lone `-` after white space holds no digits, so the count is rejected. */
  lemma BlockCountSignOnly()
    ensures ParseBlockCount(" -") == None
  {
    assert SkipSpace(" -") == "-";
  }

  /** `-1` wraps to the largest count. */
  lemma BlockCountMinusOne()
    ensures ParseBlockCount("-1") == Some(0xFFFF_FFFF)
  {
    assert Decimal.ToDecimal(1) == "1";
    SkipSpaceOf("", "-1");
    assert "" + "-1" == "-1";
    ParseSignedOf("-", "1", []);
    assert "-" + ("1" + []) == "-1";
    ParseDigitsOf(1, true);
    assert Wrap64(-1) == 0xFFFF_FFFF_FFFF_FFFF;
  }

  /** The bare decimal text of a count, with nothing after it. */
  lemma BlockCountOf(spaces: string, sign: string, n: nat)
    requires forall i :: 0 <= i < |spaces| ==> IsCSpace(spaces[i])
    requires sign == "" || sign == "+" || sign == "-"
    requires n < U64_LIMIT
    ensures ParseBlockCount(spaces + sign + Decimal.ToDecimal(n))
         == Some((if sign == "-" then Wrap64(-(n as int)) else n) % U32_LIMIT)
  {
    var s := Decimal.ToDecimal(n);
    var rest := sign + (s + []);
    assert spaces + sign + s == spaces + rest;
    assert rest[0] == if sign == "" then s[0] else sign[0];
    SkipSpaceOf(spaces, rest);
    ParseSignedOf(sign, s, []);
    ParseDigitsOf(n, sign == "-");
  }

  lemma BlockCountExact(n: u32)
    ensures GetCurrentBlockCount(Some(Decimal.ToDecimal(n))) == Some(n)
  {
    var s := Decimal.ToDecimal(n);
    assert SkipSpace(s) == s by {
      SkipSpaceOf("", s);
      assert "" + s == s;
    }
    assert ParseSigned(s) == ParseDigits(s, false) by {
      ParseSignedOf("", s, []);
      assert "" + (s + []) == s;
    }
    ParseDigitsOf(n, false);
  }

  lemma {:induction false} DigitPrefixOfDigits(s: string, suffix: string)
    requires Decimal.AllDigits(s)
    requires |suffix| > 0 ==> !Decimal.IsDigit(suffix[0])
    ensures Decimal.DigitPrefix(s + suffix) == s
    decreases |s|
  {
    if |s| > 0 {
      assert (s + suffix)[1..] == s[1..] + suffix;
      DigitPrefixOfDigits(s[1..], suffix);
      assert s == [s[0]] + s[1..];
    } else {
      assert s + suffix == suffix;
    }
  }

  /** getName: `/name`, parsed as JSON by the given parser. */
  function GetName(response: Option<string>, parseJson: string -> Option<Transaction.Json>)
    : (r: Option<Transaction.Json>)
    ensures response.None? ==> r.None?
    ensures response.Some? ==> r == parseJson(response.value)
  {
    TryHost(response, parseJson)
  }

  /** The body of pingPeer's `/add_peer` request. */
  function PingBody(peerUrl: string, networkTime: u64, version: string, networkName: string)
    : (j: Transaction.Json)
    ensures j.Keys == {"address", "networkName", "time", "version"}
    ensures j["address"] == Transaction.JText(peerUrl) && j["time"] == Transaction.JNumber(networkTime)
    ensures j["version"] == Transaction.JText(version) && j["networkName"] == Transaction.JText(networkName)
  {
    map["address" := Transaction.JText(peerUrl), "networkName" := Transaction.JText(networkName),
        "time" := Transaction.JNumber(networkTime), "version" := Transaction.JText(version)]
  }
}
