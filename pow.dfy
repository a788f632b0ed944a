/**
  The pure half of pow.go: the hashed preimage of a nonce and the
  zero-prefix test on the lowercase Base16 text (section 8 of RFC 4648) of
  a hash. The nonce search itself writes the block and lives in the Block
  class.
*/
module ProofOfWork {
  import opened Bytes
  import opened Crypto

  /** Number of leading hexadecimal zeros a sealed hash shows. */
  const Difficulty := 4

  /** The nonce search stops before `math.MaxInt64`. */
  const MaxInt64: nat := 0x7fff_ffff_ffff_ffff

  /** The target text: `Difficulty` zero characters. */
  const PrefixTarget: string := "0000"

  /**
    The first `Difficulty` characters of the hex text of `hash` are all '0'.
    The text has to be at least that long, so the hash needs two bytes.
  */
  predicate ZeroPrefix(hash: Bytes)
    requires |hash| >= 2
  {
    Hex(hash)[..Difficulty] == PrefixTarget
  }

  /** Four zero hex digits are exactly two zero bytes. */
  lemma ZeroPrefixIffZeroBytes(hash: Bytes)
    requires |hash| >= 2
    ensures ZeroPrefix(hash) <==> hash[0] == 0 && hash[1] == 0
  {
    var s := Hex(hash);
    assert s[2..] == Hex(hash[1..]);
    assert Hex(hash[1..])[2..] == Hex(hash[2..]);
    assert s[..Difficulty] == [s[0], s[1], s[2], s[3]];
    HexDigitIsZeroChar(hash[0] / 16);
    HexDigitIsZeroChar(hash[0] % 16);
    HexDigitIsZeroChar(hash[1] / 16);
    HexDigitIsZeroChar(hash[1] % 16);
  }

  /**
    The preimage for `nonce`: the previous block hash, the block data, the
    hash stored before sealing and the lowercase hex numeral of the nonce,
    with no separators.
  */
  function Join(prevBlockHash: Bytes, data: Bytes, hash: Bytes, nonce: nat): (r: Bytes)
    ensures |r| == |prevBlockHash| + |data| + |hash| + |HexNumeral(nonce)|
    ensures r[..|prevBlockHash| + |data| + |hash|] == prevBlockHash + data + hash
    ensures r[|prevBlockHash| + |data| + |hash|..] == AsciiBytes(HexNumeral(nonce))
  {
    prevBlockHash + data + hash + AsciiBytes(HexNumeral(nonce))
  }

  /** The nonce is recoverable from its preimage: distinct nonces hash distinct inputs. */
  lemma JoinInjectiveInNonce(prevBlockHash: Bytes, data: Bytes, hash: Bytes, m: nat, n: nat)
    requires Join(prevBlockHash, data, hash, m) == Join(prevBlockHash, data, hash, n)
    ensures m == n
  {
    var a := HexNumeral(m);
    var b := HexNumeral(n);
    assert AsciiBytes(a) == AsciiBytes(b);
    assert |a| == |b|;
    forall i | 0 <= i < |a|
      ensures a[i] == b[i]
    {
      assert AsciiBytes(a)[i] == AsciiBytes(b)[i];
    }
    assert a == b;
    HexNumeralInjective(m, n);
  }

  /** `nonce` seals a block: the hash of its preimage has the zero prefix. */
  predicate Seals(c: Primitives, prevBlockHash: Bytes, data: Bytes, hash: Bytes, nonce: nat) {
    ZeroPrefix(c.sha256(Join(prevBlockHash, data, hash, nonce)))
  }
}
