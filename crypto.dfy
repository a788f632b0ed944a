/**
  The foreign primitives the ledger calls: SHA-256 (FIPS 180-4), RIPEMD-160,
  base58, ECDSA over P-256 (FIPS 186-4, section 6) and the gob encoding of a
  transaction. None of their code is part of this model; each is an
  arbitrary total function of the right shape, bundled in one record that
  every operation receives, so every property proved holds for every
  choice of them. Facts about them that a property needs (the base58 round
  trip, ECDSA correctness) are stated as hypotheses of that property.
*/
module Crypto {
  import opened Wrappers
  import opened Bytes
  import opened Records

  /** A SHA-256 digest: 32 bytes. */
  type Digest = s: Bytes | |s| == 32 witness seq(32, _ => 0)

  /** A RIPEMD-160 digest: 20 bytes. */
  type Digest160 = s: Bytes | |s| == 20 witness seq(20, _ => 0)

  datatype Primitives = Primitives(
    sha256: Bytes -> Digest,
    ripemd160: Bytes -> Digest160,
    base58Encode: Bytes -> string,
    /** `base58.Decode`; None is the error return. */
    base58Decode: string -> Option<Bytes>,
    /** `ecdsa.Sign`: the signature (r, s) of a digest under a private key;
        the last argument stands for the bytes drawn from `rand.Reader`. */
    ecdsaSign: (Bytes, Bytes, Bytes) -> (nat, nat),
    /** `ecdsa.Verify` on the key point (x, y), the digest and the signature (r, s). */
    ecdsaVerify: (nat, nat, Bytes, nat, nat) -> bool,
    /** The gob encoding of a transaction (`Transaction.Serialize`). */
    gobTransaction: Transaction -> Bytes
  )

  /** base58 decoding undoes base58 encoding (the library is not part of this model). */
  ghost predicate Base58RoundTrip(c: Primitives) {
    forall bs: Bytes :: c.base58Decode(c.base58Encode(bs)) == Some(bs)
  }
}
