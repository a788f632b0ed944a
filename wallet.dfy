/** Address derivation and validation of wallet.go. */
module Wallets {
  import opened Wrappers
  import opened Bytes
  import opened Crypto
  import opened Records
  import opened Utils

  /**
    The bytes an address encodes: version byte, the 20-byte key hash and the
    4-byte checksum of those 21 bytes. Only the public key takes part.
  */
  function AddressBytes(c: Primitives, publicKey: Bytes): (r: Bytes)
    ensures |r| == 25
    ensures r[0] == Version
    ensures r[1..21] == RipeMd160Sha256(c, publicKey)
    ensures r[21..] == ShaChecksum(c, r[..21], AddressChecksumLength)
  {
    var versioned := [Version] + RipeMd160Sha256(c, publicKey);
    assert (versioned + ShaChecksum(c, versioned, AddressChecksumLength))[..21] == versioned;
    versioned + ShaChecksum(c, versioned, AddressChecksumLength)
  }

  /** The wallet's base58 address text (the Go byte/string conversions are identities). */
  function GetAddress(c: Primitives, w: Wallet): (r: string)
    ensures Base58RoundTrip(c) ==> c.base58Decode(r) == Some(AddressBytes(c, w.publicKey))
  {
    c.base58Encode(AddressBytes(c, w.publicKey))
  }

  /** Two wallets with the same public key have the same address, whatever their private keys. */
  lemma GetAddressIgnoresPrivateKey(c: Primitives, w1: Wallet, w2: Wallet)
    requires w1.publicKey == w2.publicKey
    ensures GetAddress(c, w1) == GetAddress(c, w2)
  {
  }

  /** The address decodes (a decoding error would panic) to at least a checksum's length. */
  predicate AddressDecodes(c: Primitives, w: Wallet) {
    var d := c.base58Decode(GetAddress(c, w));
    d.Some? && |d.value| >= AddressChecksumLength
  }

  /**
    Decodes the wallet's own address, splits off the last four bytes and
    compares them with the checksum recomputed over the rest, version byte
    included.
  */
  function IsValidAddress(c: Primitives, w: Wallet): (r: bool)
    requires AddressDecodes(c, w)
    ensures r <==>
      var d := c.base58Decode(GetAddress(c, w)).value;
      d[|d| - AddressChecksumLength..] == ShaChecksum(c, d[..|d| - AddressChecksumLength], AddressChecksumLength)
  {
    var publicK := c.base58Decode(GetAddress(c, w)).value;
    var checksum := publicK[|publicK| - AddressChecksumLength..];
    var publicKeyHash := publicK[0..|publicK| - AddressChecksumLength];
    checksum == ShaChecksum(c, publicKeyHash, AddressChecksumLength)
  }

  /** Every wallet's address passes validation, given the base58 round trip. */
  lemma {:induction false} EveryAddressIsValid(c: Primitives, w: Wallet)
    requires Base58RoundTrip(c)
    ensures AddressDecodes(c, w)
    ensures IsValidAddress(c, w)
  {
  }

  /** The key hash read back from a wallet's address is the hash of its public key. */
  lemma {:induction false} PubKeyHashOfAddress(c: Primitives, w: Wallet)
    requires Base58RoundTrip(c)
    ensures DecodedLongEnough(c, GetAddress(c, w))
    ensures PubKeyHash(c, GetAddress(c, w)) == Ok(RipeMd160Sha256(c, w.publicKey))
  {
    var d := AddressBytes(c, w.publicKey);
    assert d[1..|d| - AddressChecksumLength] == d[1..21];
  }
}
