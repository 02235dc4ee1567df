/**
 * The storage location of a Solidity mapping entry. The value for key `k` of
 * a mapping declared at slot `p` lives at keccak256(pad32(k) ++ pad32(p)),
 * where pad32 writes a 256-bit integer as 32 big-endian bytes and the
 * 32-byte digest is read back as a big-endian integer.
 *
 * Keccak-256 itself is not modelled: it is the parameter `keccak`, any
 * function from byte strings to 32-byte digests.
 */
module StorageSlot {
  import opened Bits

  type Byte = x: nat | x < TWO_8

  /** A 32-byte hash output (`B256`). */
  type Digest = b: seq<Byte> | |b| == 32 witness seq(32, _ => 0)

  type Hasher = seq<Byte> -> Digest

  /** The low `n` bytes of `x`, most significant byte first. */
  function BeBytes(x: nat, n: nat): (b: seq<Byte>)
    ensures |b| == n
  {
    if n == 0 then [] else BeBytes(x / TWO_8, n - 1) + [x % TWO_8]
  }

  /** The unsigned number whose big-endian bytes are `b`. */
  function FromBeBytes(b: seq<Byte>): (x: nat)
    ensures x < Pow2(8 * |b|)
  {
    if b == [] then 0
    else
      Pow2NextByte(|b| - 1);
      FromBeBytes(b[..|b| - 1]) * TWO_8 + b[|b| - 1]
  }

  /** Writing a number that fits in `n` bytes and reading it back gives the number. */
  lemma {:induction false} BeBytesRoundTrip(x: nat, n: nat)
    requires x < Pow2(8 * n)
    ensures FromBeBytes(BeBytes(x, n)) == x
  {
    if n > 0 {
      Pow2NextByte(n - 1);
      var q, r := x / TWO_8, x % TWO_8;
      assert x == q * TWO_8 + r;
      assert q < Pow2(8 * (n - 1));
      var b := BeBytes(x, n);
      assert b == BeBytes(q, n - 1) + [r];
      assert b[..n - 1] == BeBytes(q, n - 1) && b[n - 1] == r;
      BeBytesRoundTrip(q, n - 1);
      assert FromBeBytes(b) == FromBeBytes(b[..n - 1]) * TWO_8 + b[n - 1];
    }
  }

  /** Reading bytes as a number and writing it back at the same width gives the bytes. */
  lemma {:induction false} FromBeBytesRoundTrip(b: seq<Byte>)
    ensures BeBytes(FromBeBytes(b), |b|) == b
  {
    if b != [] {
      var init, last := b[..|b| - 1], b[|b| - 1];
      FromBeBytesRoundTrip(init);
      var x := FromBeBytes(b);
      assert x == FromBeBytes(init) * TWO_8 + last;
      DivModUnique(x, TWO_8, FromBeBytes(init), last);
      assert BeBytes(x, |b|) == BeBytes(FromBeBytes(init), |init|) + [last];
      assert b == init + [last];
    }
  }

  /** Concatenated big-endian numbers: the first is shifted up by the width of the second. */
  lemma {:induction false} FromBeBytesAppend(a: seq<Byte>, b: seq<Byte>)
    ensures FromBeBytes(a + b) == FromBeBytes(a) * Pow2(8 * |b|) + FromBeBytes(b)
  {
    if b == [] {
      assert a + b == a;
    } else {
      var init, last := b[..|b| - 1], b[|b| - 1];
      var ab := a + b;
      assert ab[..|ab| - 1] == a + init && ab[|ab| - 1] == last;
      FromBeBytesAppend(a, init);
      Pow2NextByte(|init|);
      var x, i, p := FromBeBytes(a), FromBeBytes(init), Pow2(8 * |init|);
      assert FromBeBytes(ab) == (x * p + i) * TWO_8 + last;
      MulAssoc(x, p, TWO_8);
      assert FromBeBytes(ab) == x * (p * TWO_8) + (i * TWO_8 + last);
    }
  }

  /** `U256::to_be_bytes::<32>()`. */
  function ToBeBytes32(x: U256): (b: seq<Byte>)
    ensures |b| == 32 && FromBeBytes(b) == x
  {
    Pow2Constants();
    BeBytesRoundTrip(x, 32);
    BeBytes(x, 32)
  }

  /** `U256::from_be_bytes` of a digest. */
  function FromBeBytes32(b: Digest): (x: U256)
    ensures ToBeBytes32(x) == b
  {
    Pow2Constants();
    FromBeBytesRoundTrip(b);
    FromBeBytes(b)
  }

  /**
   * The 64-byte buffer that is hashed: the key in bytes 0..31 and the mapping's
   * slot in bytes 32..63, both big-endian (`abi.encode(key, mapping_slot)`).
   */
  function Preimage(key: U256, mappingSlot: U256): (data: seq<Byte>)
    ensures |data| == 64
    ensures FromBeBytes(data[..32]) == key && FromBeBytes(data[32..]) == mappingSlot
  {
    var hi, lo := ToBeBytes32(key), ToBeBytes32(mappingSlot);
    assert (hi + lo)[..32] == hi && (hi + lo)[32..] == lo;
    hi + lo
  }

  /** Read as one 512-bit big-endian number, the buffer is key * 2^256 + mapping slot. */
  lemma PreimageAsNumber(key: U256, mappingSlot: U256)
    ensures FromBeBytes(Preimage(key, mappingSlot)) == key * TWO_256 + mappingSlot
  {
    var data := Preimage(key, mappingSlot);
    assert data == data[..32] + data[32..];
    FromBeBytesAppend(data[..32], data[32..]);
    Pow2Constants();
  }

  /** Different (key, mapping slot) pairs never give the same buffer. */
  lemma PreimageInjective(k1: U256, p1: U256, k2: U256, p2: U256)
    ensures Preimage(k1, p1) == Preimage(k2, p2) <==> k1 == k2 && p1 == p2
  {
  }

  /** `calculate_storage_slot`: the digest of the buffer, read big-endian. */
  function CalculateStorageSlot(keccak: Hasher, key: U256, mappingSlot: U256): (slot: U256)
    ensures ToBeBytes32(slot) == keccak(Preimage(key, mappingSlot))
  {
    FromBeBytes32(keccak(Preimage(key, mappingSlot)))
  }

  /** Two keys of one mapping share a slot only through a collision of the hash. */
  lemma SharedSlotIsHashCollision(keccak: Hasher, k1: U256, k2: U256, mappingSlot: U256)
    requires k1 != k2
    requires CalculateStorageSlot(keccak, k1, mappingSlot) == CalculateStorageSlot(keccak, k2, mappingSlot)
    ensures Preimage(k1, mappingSlot) != Preimage(k2, mappingSlot)
    ensures keccak(Preimage(k1, mappingSlot)) == keccak(Preimage(k2, mappingSlot))
  {
    PreimageInjective(k1, mappingSlot, k2, mappingSlot);
  }
}
