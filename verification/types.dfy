/** Fixed-width values shared by every component: bytes, unsigned machine
    integers, the fixed-size byte strings of hashes, addresses, keys and
    signatures, and the two byte orders the node writes integers in. */
module Types {

  newtype byte = b: int | 0 <= b < 256

  const U32_LIMIT: nat := 0x1_0000_0000
  const U64_LIMIT: nat := 0x1_0000_0000_0000_0000

  type u32 = n: nat | n < U32_LIMIT
  type u64 = n: nat | n < U64_LIMIT

  /** A SHA-256 digest. */
  type Hash = s: seq<byte> | |s| == 32 witness seq(32, _ => 0)
  /** A public wallet address (network byte, RIPEMD-160 digest, checksum). */
  type Address = s: seq<byte> | |s| == 25 witness seq(25, _ => 0)
  /** A compressed secp256k1 public key as stored in a transaction. */
  type PublicKey = s: seq<byte> | |s| == 32 witness seq(32, _ => 0)
  /** A transaction signature. */
  type Signature = s: seq<byte> | |s| == 64 witness seq(64, _ => 0)
  /** The payload of a layer-2 transaction. */
  type TxData = s: seq<byte> | |s| == 128 witness seq(128, _ => 0)

  function Zeros(n: nat): (r: seq<byte>)
    ensures |r| == n
    ensures forall i :: 0 <= i < n ==> r[i] == 0
  {
    seq(n, _ => 0)
  }

  /** NULL_SHA256_HASH: the all-zero digest. */
  const NULL_HASH: Hash := Zeros(32)
  /** NULL_ADDRESS: the all-zero wallet address. */
  const NULL_ADDRESS: Address := Zeros(25)

  function Pow256(w: nat): (r: nat)
    ensures r > 0
  {
    if w == 0 then 1 else 256 * Pow256(w - 1)
  }

  /** `x` reduced modulo 2^64, as C++ unsigned 64-bit arithmetic does. */
  function Wrap64(x: int): (r: u64)
    ensures 0 <= x < U64_LIMIT ==> r == x
    ensures (r - x) % U64_LIMIT == 0
  {
    x % U64_LIMIT
  }

  /** `x` converted to a two's-complement 32-bit signed integer. */
  function ToInt32(x: int): (r: int)
    ensures -0x8000_0000 <= r < 0x8000_0000
    ensures (r - x) % U32_LIMIT == 0
    ensures -0x8000_0000 <= x < 0x8000_0000 ==> r == x
  {
    var m := x % U32_LIMIT;
    if m >= 0x8000_0000 then m - U32_LIMIT else m
  }

  /** C++ integer division: the quotient is truncated toward zero, so the
      remainder is smaller than the divisor and takes the dividend's sign. */
  function CDiv(a: int, b: int): (q: int)
    requires b > 0
    ensures -b < a - q * b < b
    ensures a >= 0 ==> 0 <= a - q * b
    ensures a <= 0 ==> a - q * b <= 0
  {
    if a >= 0 then a / b else -((-a) / b)
  }

  /** The truncating quotient is the only one with such a remainder. */
  lemma CDivUnique(a: int, b: int, q: int)
    requires b > 0 && -b < a - q * b < b
    requires a >= 0 ==> 0 <= a - q * b
    requires a <= 0 ==> a - q * b <= 0
    ensures q == CDiv(a, b)
  {
    var p := CDiv(a, b);
    var d := q - p;
    assert (a - p * b) - (a - q * b) == d * b;
    assert d >= 1 ==> d * b >= b;
    assert d <= -1 ==> d * b <= -b;
  }

  /** Truncation is odd: negating the dividend negates the quotient. */
  lemma CDivOdd(a: int, b: int)
    requires b > 0
    ensures CDiv(-a, b) == -CDiv(a, b)
  {
    CDivUnique(-a, b, -CDiv(a, b));
  }

  // ---------------------------------------------------------------------
  // Big-endian (network byte order) integers: readNetworkUintN/writeNetworkUintN

  function BigEndian(n: nat, width: nat): (r: seq<byte>)
    requires n < Pow256(width)
    ensures |r| == width
  {
    if width == 0 then [] else BigEndian(n / 256, width - 1) + [(n % 256) as byte]
  }

  function FromBigEndian(s: seq<byte>): (n: nat)
    ensures n < Pow256(|s|)
  {
    if |s| == 0 then 0
    else FromBigEndian(s[..|s| - 1]) * 256 + s[|s| - 1] as nat
  }

  lemma {:induction false} BigEndianRoundTrip(n: nat, width: nat)
    requires n < Pow256(width)
    ensures FromBigEndian(BigEndian(n, width)) == n
  {
    if width > 0 {
      var s := BigEndian(n, width);
      assert s[..|s| - 1] == BigEndian(n / 256, width - 1);
      BigEndianRoundTrip(n / 256, width - 1);
    }
  }

  lemma {:induction false} FromBigEndianRoundTrip(s: seq<byte>)
    ensures BigEndian(FromBigEndian(s), |s|) == s
  {
    if |s| > 0 {
      var init := s[..|s| - 1];
      FromBigEndianRoundTrip(init);
      var n := FromBigEndian(s);
      assert n / 256 == FromBigEndian(init);
      assert s == init + [s[|s| - 1]];
    }
  }

  // ---------------------------------------------------------------------
  // Little-endian integers: the in-memory layout of uint32_t, uint64_t and
  // size_t on the x86-64 hosts the node runs on.

  function LittleEndian(n: nat, width: nat): (r: seq<byte>)
    requires n < Pow256(width)
    ensures |r| == width
  {
    if width == 0 then [] else [(n % 256) as byte] + LittleEndian(n / 256, width - 1)
  }

  function FromLittleEndian(s: seq<byte>): (n: nat)
    ensures n < Pow256(|s|)
  {
    if |s| == 0 then 0 else s[0] as nat + 256 * FromLittleEndian(s[1..])
  }

  lemma {:induction false} LittleEndianRoundTrip(n: nat, width: nat)
    requires n < Pow256(width)
    ensures FromLittleEndian(LittleEndian(n, width)) == n
  {
    if width > 0 {
      var s := LittleEndian(n, width);
      assert s[1..] == LittleEndian(n / 256, width - 1);
      LittleEndianRoundTrip(n / 256, width - 1);
    }
  }

  /** Equal-width little-endian encodings are equal only for equal numbers. */
  lemma LittleEndianInjective(a: nat, b: nat, width: nat)
    requires a < Pow256(width) && b < Pow256(width)
    requires LittleEndian(a, width) == LittleEndian(b, width)
    ensures a == b
  {
    LittleEndianRoundTrip(a, width);
    LittleEndianRoundTrip(b, width);
  }

  lemma BigEndianInjective(a: nat, b: nat, width: nat)
    requires a < Pow256(width) && b < Pow256(width)
    requires BigEndian(a, width) == BigEndian(b, width)
    ensures a == b
  {
    BigEndianRoundTrip(a, width);
    BigEndianRoundTrip(b, width);
  }

  lemma Pow256Values()
    ensures Pow256(4) == U32_LIMIT
    ensures Pow256(8) == U64_LIMIT
  {
    assert Pow256(1) == 256;
    assert Pow256(2) == 65536;
    assert Pow256(3) == 16777216;
    assert Pow256(4) == 4294967296;
    assert Pow256(5) == 1099511627776;
    assert Pow256(6) == 281474976710656;
    assert Pow256(7) == 72057594037927936;
  }

  // ---------------------------------------------------------------------
  // The fixed widths the node uses.

  /** writeNetworkUint64: eight bytes, most significant first. */
  function NetworkUint64(n: u64): (r: seq<byte>)
    ensures |r| == 8
  {
    Pow256Values();
    BigEndian(n, 8)
  }

  /** writeNetworkUint32: four bytes, most significant first. */
  function NetworkUint32(n: u32): (r: seq<byte>)
    ensures |r| == 4
  {
    Pow256Values();
    BigEndian(n, 4)
  }

  /** readNetworkUint64 / readNetworkUint32: the inverse of the two above. */
  function ReadNetworkUint(s: seq<byte>): (n: nat)
    ensures |s| == 8 ==> n < U64_LIMIT
    ensures |s| == 4 ==> n < U32_LIMIT
  {
    Pow256Values();
    FromBigEndian(s)
  }

  lemma NetworkUint64RoundTrip(n: u64)
    ensures ReadNetworkUint(NetworkUint64(n)) == n
  {
    Pow256Values();
    BigEndianRoundTrip(n, 8);
  }

  lemma NetworkUint32RoundTrip(n: u32)
    ensures ReadNetworkUint(NetworkUint32(n)) == n
  {
    Pow256Values();
    BigEndianRoundTrip(n, 4);
  }

  lemma ReadNetworkUint64RoundTrip(s: seq<byte>)
    requires |s| == 8
    ensures NetworkUint64(ReadNetworkUint(s)) == s
  {
    FromBigEndianRoundTrip(s);
  }

  lemma ReadNetworkUint32RoundTrip(s: seq<byte>)
    requires |s| == 4
    ensures NetworkUint32(ReadNetworkUint(s)) == s
  {
    FromBigEndianRoundTrip(s);
  }

  /** The in-memory bytes of a uint64_t / size_t. */
  function HostUint64(n: u64): (r: seq<byte>)
    ensures |r| == 8
  {
    Pow256Values();
    LittleEndian(n, 8)
  }

  /** The in-memory bytes of a uint32_t (and of a non-negative int). */
  function HostUint32(n: u32): (r: seq<byte>)
    ensures |r| == 4
  {
    Pow256Values();
    LittleEndian(n, 4)
  }

  function ReadHostUint(s: seq<byte>): (n: nat)
    ensures |s| == 8 ==> n < U64_LIMIT
    ensures |s| == 4 ==> n < U32_LIMIT
  {
    Pow256Values();
    FromLittleEndian(s)
  }

  lemma HostUint64RoundTrip(n: u64)
    ensures ReadHostUint(HostUint64(n)) == n
  {
    Pow256Values();
    LittleEndianRoundTrip(n, 8);
  }

  lemma HostUint32Injective(a: u32, b: u32)
    requires HostUint32(a) == HostUint32(b)
    ensures a == b
  {
    Pow256Values();
    LittleEndianInjective(a, b, 4);
  }

  lemma HostUint64Injective(a: u64, b: u64)
    requires HostUint64(a) == HostUint64(b)
    ensures a == b
  {
    Pow256Values();
    LittleEndianInjective(a, b, 8);
  }
}
