/** Block headers and blocks as the peer layer sees them. The header's
    layout, its hash, its proof-of-work check and the work function live in
    block.hpp / block.cpp, which are not part of this model: they enter as
    function-valued parameters. */
module Blocks {
  import opened Types
  import Transaction

  /** The fields of a header the peer layer reads; `rest` stands for the
      remaining fields (nonce, merkle root, timestamp, ...). The C++ header
      is a fixed-width struct: the integers are `uint32_t`, and the
      remaining fields fill a fixed number of bytes (`Representable`). */
  datatype BlockHeader = BlockHeader(
    id: u32,
    numTransactions: u32,
    lastBlockHash: Hash,
    difficulty: u32,
    rest: seq<byte>)

  datatype Block = Block(header: BlockHeader, transactions: seq<Transaction.Transaction>)

  /** Block::getHash, Block::verifyNonce and addWork. */
  datatype Crypto = Crypto(
    blockHash: BlockHeader -> Hash,
    verifyNonce: BlockHeader -> bool,
    addWork: (nat, nat) -> nat)

  /** blockHeaderToBuffer / blockHeaderFromBuffer and
      BLOCKHEADER_BUFFER_SIZE; `restSize` is the width of the header's
      remaining fields. */
  datatype HeaderCodec = HeaderCodec(
    size: nat,
    restSize: nat,
    encode: BlockHeader -> seq<byte>,
    decode: seq<byte> -> BlockHeader)

  /** A header the C++ struct can hold: its remaining fields have the
      struct's width. */
  predicate Representable(hc: HeaderCodec, h: BlockHeader) {
    |h.rest| == hc.restSize
  }

  /** blockHeaderToBuffer always writes BLOCKHEADER_BUFFER_SIZE bytes, a
      positive number. */
  ghost predicate FixedSize(hc: HeaderCodec) {
    && hc.size > 0
    && forall h :: |hc.encode(h)| == hc.size
  }

  /** The assumptions made of the header codec: a positive fixed size,
      decoding always yields a header the struct can hold, and decoding
      undoes encoding for every such header. */
  ghost predicate ValidCodec(hc: HeaderCodec) {
    && FixedSize(hc)
    && (forall b :: Representable(hc, hc.decode(b)))
    && forall h :: Representable(hc, h) ==> hc.decode(hc.encode(h)) == h
  }

  // ---------------------------------------------------------------------
  // A codec that meets the assumptions, so that they are not vacuous. The
  // layout (four big-endian integers and the hash, then the remaining
  // bytes) is chosen for the purpose; it is not claimed to be block.hpp's.

  /** `s` cut or zero-padded to `n` bytes. */
  function Fit(s: seq<byte>, n: nat): (r: seq<byte>)
    ensures |r| == n
    ensures |s| == n ==> r == s
    ensures |s| >= n ==> r == s[..n]
  {
    if |s| >= n then s[..n] else s + Zeros(n - |s|)
  }

  function ExampleEncode(restSize: nat, h: BlockHeader): (r: seq<byte>)
    ensures |r| == 44 + restSize
  {
    NetworkUint32(h.id) + NetworkUint32(h.numTransactions) + h.lastBlockHash
      + NetworkUint32(h.difficulty) + Fit(h.rest, restSize)
  }

  function ExampleDecode(restSize: nat, b: seq<byte>): (h: BlockHeader)
    ensures |h.rest| == restSize
  {
    var p := Fit(b, 44 + restSize);
    BlockHeader(ReadNetworkUint(p[..4]), ReadNetworkUint(p[4..8]), p[8..40],
                ReadNetworkUint(p[40..44]), p[44..])
  }

  function ExampleCodec(restSize: nat): HeaderCodec {
    HeaderCodec(44 + restSize, restSize,
                h => ExampleEncode(restSize, h), b => ExampleDecode(restSize, b))
  }

  lemma ExampleRoundTrip(restSize: nat, h: BlockHeader)
    requires |h.rest| == restSize
    ensures ExampleDecode(restSize, ExampleEncode(restSize, h)) == h
  {
    var e := ExampleEncode(restSize, h);
    assert e[..4] == NetworkUint32(h.id);
    assert e[4..8] == NetworkUint32(h.numTransactions);
    assert e[8..40] == h.lastBlockHash;
    assert e[40..44] == NetworkUint32(h.difficulty);
    assert e[44..] == h.rest;
    NetworkUint32RoundTrip(h.id);
    NetworkUint32RoundTrip(h.numTransactions);
    NetworkUint32RoundTrip(h.difficulty);
  }

  /** Every width of the remaining fields has a codec meeting the
      assumptions. */
  lemma ExampleCodecValid(restSize: nat)
    ensures ValidCodec(ExampleCodec(restSize))
    ensures ExampleCodec(restSize).size == 44 + restSize
  {
    var hc := ExampleCodec(restSize);
    forall h | Representable(hc, h) ensures hc.decode(hc.encode(h)) == h {
      ExampleRoundTrip(restSize, h);
    }
  }

  /** The block's header counts its transactions. */
  predicate CountsTransactions(b: Block) {
    b.header.numTransactions as nat == |b.transactions|
  }

  /** The assumption stated in place of addWork's definition: adding a
      header's work never lowers the total. */
  ghost predicate WorkMonotone(c: Crypto) {
    forall w, d :: c.addWork(w, d) >= w
  }

  /** Stronger: every header adds some work. */
  ghost predicate WorkIncreasing(c: Crypto) {
    forall w, d :: c.addWork(w, d) > w
  }
}
